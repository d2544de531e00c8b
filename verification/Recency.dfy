/** A bounded JavaScript Map that keeps its keys in order of last use, explained by its history. */
module Recency {
  import opened Common
  import opened Sorting

  // A Map: its keys in insertion order, and their values.
  datatype OrderedMap<V> = OrderedMap(order: seq<string>, values: map<string, V>) {
    ghost predicate WellFormed() {
      Distinct(order) && forall k :: k in order <==> k in values
    }

    predicate Has(key: string) {
      key in values
    }

    function Size(): nat {
      |order|
    }

    function Delete(key: string): OrderedMap<V> {
      OrderedMap(Except(order, key), values - {key})
    }

    function Set(key: string, v: V): OrderedMap<V> {
      OrderedMap(if key in values then order else order + [key], values[key := v])
    }
  }

  function Except(s: seq<string>, key: string): (r: seq<string>)
    ensures forall k :: k in r <==> k in s && k != key
  {
    if s == [] then []
    else
      assert s == [s[0]] + s[1..];
      (if s[0] == key then [] else [s[0]]) + Except(s[1..], key)
  }

  lemma TailDistinct(s: seq<string>)
    requires s != [] && Distinct(s)
    ensures Distinct(s[1..]) && s[0] !in s[1..]
  {
  }

  lemma {:induction false} ExceptKeeps(s: seq<string>, key: string)
    ensures Distinct(s) ==> Distinct(Except(s, key))
    ensures key !in s ==> Except(s, key) == s
    ensures |Except(s, key)| <= |s|
    ensures key in s ==> |Except(s, key)| < |s|
  {
    if s != [] {
      var t, r := s[1..], Except(s[1..], key);
      ExceptKeeps(t, key);
      assert s == [s[0]] + t;
      assert Except(s, key) == if s[0] == key then r else [s[0]] + r;
      if Distinct(s) {
        TailDistinct(s);
        assert s[0] !in r;
      }
    }
  }

  /** Makes room for a new key by dropping the oldest entry. */
  function EvictOldest<V>(seen: OrderedMap<V>, key: string, maxKeys: int): OrderedMap<V> {
    if seen.Size() < maxKeys || seen.Has(key) then seen
    else if seen.order == [] then seen
    else seen.Delete(seen.order[0])
  }

  /** Moves `key` to the end with a new value, evicting first. */
  function Touch<V>(seen: OrderedMap<V>, key: string, v: V, maxKeys: int): OrderedMap<V> {
    EvictOldest(seen, key, maxKeys).Delete(key).Set(key, v)
  }

  // The history of touches, oldest first, and what it says of one key.

  type History<V> = seq<(string, V)>

  ghost predicate Occurs<V>(h: History<V>, key: string) {
    exists i :: 0 <= i < |h| && h[i].0 == key
  }

  /** The different keys touched since `key` was last touched. */
  ghost function Since<V>(h: History<V>, key: string): set<string> {
    if h == [] || h[|h| - 1].0 == key then {} else Since(h[..|h| - 1], key) + {h[|h| - 1].0}
  }

  ghost function Latest<V>(h: History<V>, key: string): V
    requires Occurs(h, key)
    decreases |h|
  {
    if h[|h| - 1].0 == key then h[|h| - 1].1
    else
      var i :| 0 <= i < |h| && h[i].0 == key;
      assert h[..|h| - 1][i].0 == key;
      Latest(h[..|h| - 1], key)
  }

  function Capacity(maxKeys: int): (r: nat)
    ensures r >= 1 && r >= maxKeys && (r == 1 || r == maxKeys)
  {
    if maxKeys < 1 then 1 else maxKeys
  }

  /** The key was touched, and fewer than `cap` different keys have been touched since. */
  ghost predicate Remembered<V>(h: History<V>, key: string, cap: nat) {
    Occurs(h, key) && |Since(h, key)| < cap
  }

  /** The keys after position `p`. */
  ghost function Tail(s: seq<string>, p: nat): set<string>
    requires p < |s|
  {
    Elements(s[p + 1..])
  }

  /** The map holds exactly the remembered keys, in order of last touch, with their latest values. */
  ghost predicate Explains<V>(h: History<V>, seen: OrderedMap<V>, cap: nat) {
    && seen.WellFormed() && |seen.order| <= cap
    && (forall k :: k in seen.values ==> Occurs(h, k) && Latest(h, k) == seen.values[k])
    && (forall p {:trigger Tail(seen.order, p)} :: 0 <= p < |seen.order| ==> Since(h, seen.order[p]) == Tail(seen.order, p))
    && (forall k :: Occurs(h, k) && k !in seen.values ==> |Since(h, k)| >= cap)
  }

  lemma OccursMore<V>(h: History<V>, e: (string, V), key: string)
    ensures Occurs(h + [e], key) <==> Occurs(h, key) || key == e.0
  {
    if Occurs(h, key) {
      var i :| 0 <= i < |h| && h[i].0 == key;
      assert (h + [e])[i].0 == key;
    }
    assert (h + [e])[|h|] == e;
  }

  lemma SinceMore<V>(h: History<V>, e: (string, V), key: string)
    ensures Since(h + [e], key) == if key == e.0 then {} else Since(h, key) + {e.0}
    ensures Occurs(h, key) && key != e.0 ==> Occurs(h + [e], key) && Latest(h + [e], key) == Latest(h, key)
    ensures Occurs(h + [e], e.0) && Latest(h + [e], e.0) == e.1
  {
    OccursMore(h, e, key);
    OccursMore(h, e, e.0);
    assert (h + [e])[..|h|] == h;
  }

  lemma {:induction false} DistinctCount(s: seq<string>)
    requires Distinct(s)
    ensures |Elements(s)| == |s|
  {
    if s != [] {
      var t := s[1..];
      DistinctCount(t);
      assert Elements(s) == Elements(t) + {s[0]};
    }
  }

  /** The map holds a key exactly when the history remembers it. */
  lemma HasIffRemembered<V>(h: History<V>, seen: OrderedMap<V>, cap: nat, key: string)
    requires Explains(h, seen, cap)
    ensures seen.Has(key) <==> Remembered(h, key, cap)
    ensures seen.Has(key) ==> seen.values[key] == Latest(h, key)
  {
    if seen.Has(key) {
      var p :| 0 <= p < |seen.order| && seen.order[p] == key;
      DistinctCount(seen.order[p + 1..]);
      assert Since(h, key) == Tail(seen.order, p);
    }
  }

  /** Taking a key out of the order leaves the later keys of the others as they were, but for that key. */
  lemma {:induction false} ExceptTail(s: seq<string>, key: string, p: nat) returns (q: nat)
    requires p < |Except(s, key)|
    ensures q < |s| && s[q] == Except(s, key)[p] && Tail(Except(s, key), p) == Tail(s, q) - {key}
  {
    var t, r := s[1..], Except(s[1..], key);
    if s[0] == key {
      assert Except(s, key) == r;
      q := ExceptTail(t, key, p);
      assert t[q + 1..] == s[q + 2..];
      q := q + 1;
    } else if p == 0 {
      q := 0;
      assert Except(s, key) == [s[0]] + r && Except(s, key)[1..] == r;
      assert Elements(r) == Elements(t) - {key};
    } else {
      assert Except(s, key) == [s[0]] + r && Except(s, key)[p + 1..] == r[p..];
      q := ExceptTail(t, key, p - 1);
      assert t[q + 1..] == s[q + 2..];
      q := q + 1;
    }
  }

  /** Like `Explains`, for a map about to receive `key`: room is made, and `key` counts as touched. */
  ghost predicate ExplainsBut<V>(h: History<V>, seen: OrderedMap<V>, cap: nat, key: string) {
    && seen.WellFormed() && |Except(seen.order, key)| < cap
    && (forall k :: k in seen.values ==> Occurs(h, k) && Latest(h, k) == seen.values[k])
    && (forall p {:trigger Tail(seen.order, p)} :: 0 <= p < |seen.order| ==> Since(h, seen.order[p]) == Tail(seen.order, p))
    && (forall k :: Occurs(h, k) && k !in seen.values && k != key ==> |Since(h, k) + {key}| >= cap)
  }

  lemma KeepExplains<V>(h: History<V>, seen: OrderedMap<V>, cap: nat, key: string)
    requires Explains(h, seen, cap) && |Except(seen.order, key)| < cap
    ensures ExplainsBut(h, seen, cap, key)
  {
    forall k | Occurs(h, k) && k !in seen.values ensures |Since(h, k) + {key}| >= cap {
      SubsetCount(Since(h, k), Since(h, k) + {key});
    }
  }

  lemma DropExplains<V>(h: History<V>, seen: OrderedMap<V>, cap: nat, key: string)
    requires Explains(h, seen, cap) && seen.order != [] && key !in seen.values && cap <= |seen.order|
    ensures ExplainsBut(h, seen.Delete(seen.order[0]), cap, key)
  {
    hide Since, Occurs, Latest, Distinct, Except, OrderedMap.Delete, Tail;
    DropShape(seen, key);
    var seen' := seen.Delete(seen.order[0]);
    forall p {:trigger Tail(seen'.order, p)} | 0 <= p < |seen'.order| ensures Since(h, seen'.order[p]) == Tail(seen'.order, p) {
      DropTail(seen.order, p);
      assert Since(h, seen.order[p + 1]) == Tail(seen.order, p + 1);
    }
    forall k | Occurs(h, k) && k !in seen'.values && k != key ensures |Since(h, k) + {key}| >= cap {
      DropForgets(h, seen, cap, key, k);
    }
  }

  lemma DropTail(order: seq<string>, p: nat)
    requires p + 1 < |order|
    ensures Tail(order[1..], p) == Tail(order, p + 1) && order[1..][p] == order[p + 1]
  {
    assert order[1..][p + 1..] == order[p + 2..];
  }

  /** A key that is not in the map without its oldest entry has been followed by as many others as there is room for. */
  lemma DropForgets<V>(h: History<V>, seen: OrderedMap<V>, cap: nat, key: string, k: string)
    requires Explains(h, seen, cap) && seen.order != [] && key !in seen.values && cap <= |seen.order|
    requires Occurs(h, k) && (k in seen.values ==> k == seen.order[0])
    ensures |Since(h, k) + {key}| >= cap
  {
    hide Since, Occurs, Latest, Distinct, Except, OrderedMap.Delete;
    DropShape(seen, key);
    if k in seen.values {
      assert Since(h, k) == Tail(seen.order, 0) == Elements(seen.order[1..]);
    } else {
      SubsetCount(Since(h, k), Since(h, k) + {key});
    }
  }

  /** What dropping the oldest entry leaves, for a new key. */
  lemma DropShape<V>(seen: OrderedMap<V>, key: string)
    requires seen.WellFormed() && seen.order != [] && key !in seen.values
    ensures var seen' := seen.Delete(seen.order[0]);
      && seen'.WellFormed() && seen'.order == seen.order[1..] == Except(seen'.order, key)
      && (forall k :: k in seen'.values <==> k in seen.values && k != seen.order[0])
      && (forall k :: k in seen'.values ==> seen'.values[k] == seen.values[k])
      && |Elements(seen'.order) + {key}| == |seen.order|
  {
    var rest := seen.order[1..];
    assert seen.order == [seen.order[0]] + rest;
    ExceptHead(seen.order);
    TailDistinct(seen.order);
    ExceptKeeps(rest, key);
    DistinctCount(rest);
    hide Distinct, Except;
  }

  lemma EvictExplains<V>(h: History<V>, seen: OrderedMap<V>, maxKeys: int, key: string)
    requires Explains(h, seen, Capacity(maxKeys))
    ensures ExplainsBut(h, EvictOldest(seen, key, maxKeys), Capacity(maxKeys), key)
  {
    hide Tail, Since, Occurs;
    ExceptKeeps(seen.order, key);
    if seen.Size() < maxKeys || seen.Has(key) || seen.order == [] {
      KeepExplains(h, seen, Capacity(maxKeys), key);
    } else {
      DropExplains(h, seen, Capacity(maxKeys), key);
    }
  }

  lemma ExceptHead(s: seq<string>)
    requires s != [] && Distinct(s)
    ensures Except(s, s[0]) == s[1..]
  {
    ExceptKeeps(s[1..], s[0]);
  }

  lemma MoveShape<V>(seen: OrderedMap<V>, key: string, v: V)
    requires seen.WellFormed()
    ensures var seen' := seen.Delete(key).Set(key, v);
      && seen'.order == Except(seen.order, key) + [key] && seen'.WellFormed()
      && (forall k :: k in seen'.values <==> k == key || k in seen.values)
      && (forall k :: k in seen'.values ==> seen'.values[k] == if k == key then v else seen.values[k])
  {
    ExceptKeeps(seen.order, key);
    var kept := Except(seen.order, key);
    hide Except;
    assert Distinct(kept + [key]) by {
      assert key !in kept;
    }
    hide Distinct;
  }

  /** Moving a key to the back leaves the later keys of the others as they were, and that key after all of them. */
  lemma MoveTail(s: seq<string>, key: string, p: nat) returns (q: nat)
    requires p < |Except(s, key)|
    ensures q < |s| && s[q] == Except(s, key)[p] != key && Tail(Except(s, key) + [key], p) == Tail(s, q) + {key}
  {
    var kept := Except(s, key);
    q := ExceptTail(s, key, p);
    assert kept[p] in kept;
    hide Except;
    assert (kept + [key])[p + 1..] == kept[p + 1..] + [key];
    assert Tail(kept + [key], p) == Tail(kept, p) + {key};
  }

  /** Each key of the new order has exactly the keys behind it touched since. */
  lemma MoveTails<V>(h: History<V>, seen: OrderedMap<V>, cap: nat, key: string, v: V, p: nat)
    requires ExplainsBut(h, seen, cap, key) && p <= |Except(seen.order, key)|
    ensures var order := Except(seen.order, key) + [key]; Since(h + [(key, v)], order[p]) == Tail(order, p)
  {
    var kept := Except(seen.order, key);
    var order := kept + [key];
    SinceMore(h, (key, v), order[p]);
    hide Since, Occurs, Latest, Except;
    if p < |kept| {
      hide Tail;
      var q := MoveTail(seen.order, key, p);
      assert order[p] == kept[p] != key;
      assert Since(h, seen.order[q]) == Tail(seen.order, q);
    } else {
      assert order[p] == key;
      assert order[p + 1..] == [];
    }
  }

  lemma MoveExplains<V>(h: History<V>, seen: OrderedMap<V>, cap: nat, key: string, v: V)
    requires ExplainsBut(h, seen, cap, key)
    ensures Explains(h + [(key, v)], seen.Delete(key).Set(key, v), cap)
  {
    hide Tail, Since, Occurs, Except, OrderedMap.Delete, OrderedMap.Set;
    var h', seen' := h + [(key, v)], seen.Delete(key).Set(key, v);
    MoveShape(seen, key, v);
    forall k | k in seen'.values ensures Occurs(h', k) && Latest(h', k) == seen'.values[k] {
      SinceMore(h, (key, v), k);
    }
    forall p {:trigger Tail(seen'.order, p)} | 0 <= p < |seen'.order| ensures Since(h', seen'.order[p]) == Tail(seen'.order, p) {
      MoveTails(h, seen, cap, key, v, p);
    }
    forall k | Occurs(h', k) && k !in seen'.values ensures |Since(h', k)| >= cap {
      OccursMore(h, (key, v), k);
      SinceMore(h, (key, v), k);
    }
  }

  /** Touching a key keeps the map explained by the history. */
  lemma TouchExplains<V>(h: History<V>, seen: OrderedMap<V>, maxKeys: int, key: string, v: V)
    requires Explains(h, seen, Capacity(maxKeys))
    ensures Explains(h + [(key, v)], Touch(seen, key, v, maxKeys), Capacity(maxKeys))
  {
    EvictExplains(h, seen, maxKeys, key);
    MoveExplains(h, EvictOldest(seen, key, maxKeys), Capacity(maxKeys), key, v);
  }
}
