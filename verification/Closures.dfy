/** Breadth-first closures of the package graph: everything reachable, and everything reachable lazily. */
module Closures {
  import opened Graphs
  import opened Sorting

  type Node = string

  /** A node other than `start` that `start` reaches. */
  ghost predicate Reachable(g: Adjacency<Node>, start: Node, x: Node) {
    x != start && Reach(g, start, x)
  }

  /** `union` has the edges of both graphs. */
  ghost predicate IsUnion(union: Adjacency<Node>, eager: Adjacency<Node>, dynamic: Adjacency<Node>) {
    forall x, y :: y in Next(union, x) <==> y in Next(eager, x) || y in Next(dynamic, x)
  }

  /** Some path from `start` to `x` crosses a dynamic edge `a -> b`. */
  ghost predicate Crosses(union: Adjacency<Node>, dynamic: Adjacency<Node>, start: Node, x: Node) {
    exists a, b :: Reach(union, start, a) && b in Next(dynamic, a) && Reach(union, b, x)
  }

  lemma CrossesFurther(union: Adjacency<Node>, dynamic: Adjacency<Node>, start: Node, x: Node, y: Node)
    requires Crosses(union, dynamic, start, x) && y in Next(union, x)
    ensures Crosses(union, dynamic, start, y)
  {
    hide Reach;
    var a, b :| Reach(union, start, a) && b in Next(dynamic, a) && Reach(union, b, x);
    ReachEdge(union, x, y);
    ReachTrans(union, b, x, y);
  }

  lemma CrossesNow(union: Adjacency<Node>, dynamic: Adjacency<Node>, start: Node, x: Node, y: Node)
    requires Reach(union, start, x) && y in Next(dynamic, x)
    ensures Crosses(union, dynamic, start, y)
  {
    hide Reach;
    ReachSelf(union, y);
  }

  ghost function Targets(g: Adjacency<Node>): set<Node> {
    g.Keys + set n, m | n in g && m in g[n] :: m
  }

  /** The sorted list of the nodes other than `start` that `start` reaches. */
  method ReachableFrom(start: Node, adjacency: Adjacency<Node>) returns (sorted: seq<Node>)
    ensures forall x :: x in sorted <==> Reachable(adjacency, start, x)
    ensures SortedBy(CompareStrings, sorted) && Distinct(sorted)
  {
    hide Reach;
    var reached: seq<Node> := [];
    var queue := Next(adjacency, start);
    ReachSelf(adjacency, start);
    forall x | x in queue ensures Reach(adjacency, start, x) {
      ReachEdge(adjacency, start, x);
    }
    ghost var found: set<Node> := {};
    while queue != []
      invariant Distinct(reached) && start !in reached
      invariant forall x :: x in reached || x in queue ==> Reach(adjacency, start, x)
      invariant forall x, y :: (x == start || x in reached) && y in Next(adjacency, x)
                               ==> y == start || y in reached || y in queue
      invariant forall x :: x in reached || x in queue ==> x in Targets(adjacency)
      invariant forall x :: x in found <==> x in reached
      decreases Targets(adjacency) - found, |queue|
    {
      var current := queue[0];
      var rest := queue[1..];
      assert queue == [current] + rest;
      if current == start || current in reached {
        queue := rest;
      } else {
        forall x | x in Next(adjacency, current) ensures Reach(adjacency, start, x) {
          ReachEdge(adjacency, current, x);
          ReachTrans(adjacency, start, current, x);
        }
        reached := reached + [current];
        found := found + {current};
        queue := rest + Next(adjacency, current);
      }
    }
    forall x | Reachable(adjacency, start, x) ensures x in reached {
      ClosedReach(adjacency, found + {start}, start, x);
    }
    sorted := Sort(CompareStrings, reached);
    CompareStringsIsComparator();
    SortSorts(CompareStrings, reached);
    SortElements(CompareStrings, reached);
  }

  // The breadth-first states already enqueued are recorded under the node's name and a layer suffix.
  function Key(node: Node, crossed: bool): string {
    node + (if crossed then ":true" else ":false")
  }

  lemma KeyInjective(m: Node, n: Node, b: bool, c: bool)
    ensures Key(m, b) == Key(n, c) ==> m == n && b == c
  {
    var s, t := Key(m, b), Key(n, c);
    if s == t {
      assert s[|s| - 2] == if b then 'u' else 's';
      assert t[|t| - 2] == if c then 'u' else 's';
      assert m == s[..|m|] && n == t[..|n|];
    }
  }

  // One queue entry of the two-layer search: a node, and whether a dynamic edge lies behind it.
  type Entry = (Node, bool)

  /** What is known of every entry seen so far, and how the recorded sets mirror `entries`. */
  ghost predicate Layered(union: Adjacency<Node>, dynamic: Adjacency<Node>, start: Node, entries: set<Entry>,
                          seen: set<string>, reached: seq<Node>, queue: seq<Entry>)
  {
    && (start, false) in entries
    && (forall n, b :: Key(n, b) in seen <==> (n, b) in entries)
    && (forall n, b :: (n, b) in entries ==> Reach(union, start, n) && (b ==> Crosses(union, dynamic, start, n)))
    && (forall x :: x in reached <==> x != start && (x, true) in entries)
    && Distinct(reached)
    && (forall e :: e in queue ==> e in entries)
  }

  /** Every entry one edge after `(n, b)` is in `entries`. */
  ghost predicate Expanded(eager: Adjacency<Node>, dynamic: Adjacency<Node>, entries: set<Entry>, n: Node, b: bool) {
    && (forall y :: y in Next(eager, n) ==> (y, b) in entries)
    && (forall y :: y in Next(dynamic, n) ==> (y, true) in entries)
  }

  /** Every entry is expanded, apart from those still queued and from `current`. */
  ghost predicate Behind(eager: Adjacency<Node>, dynamic: Adjacency<Node>, entries: set<Entry>, queue: seq<Entry>,
                         current: set<Entry>)
  {
    forall n, b :: (n, b) in entries && (n, b) !in queue && (n, b) !in current ==> Expanded(eager, dynamic, entries, n, b)
  }

  lemma AddEntry(union: Adjacency<Node>, dynamic: Adjacency<Node>, start: Node, entries: set<Entry>,
                 seen: set<string>, reached: seq<Node>, queue: seq<Entry>, n: Node, b: bool)
    requires Layered(union, dynamic, start, entries, seen, reached, queue) && Key(n, b) !in seen
    requires Reach(union, start, n) && (b ==> Crosses(union, dynamic, start, n))
    ensures Layered(union, dynamic, start, entries + {(n, b)}, seen + {Key(n, b)},
                    if b && n != start then reached + [n] else reached, queue + [(n, b)])
  {
    hide Reach, Crosses, Key;
    forall m, c ensures Key(m, c) in seen + {Key(n, b)} <==> (m, c) in entries + {(n, b)} {
      KeyInjective(m, n, c, b);
    }
  }

  lemma AddKeepsBehind(eager: Adjacency<Node>, dynamic: Adjacency<Node>, entries: set<Entry>, queue: seq<Entry>,
                       current: set<Entry>, e: Entry)
    requires Behind(eager, dynamic, entries, queue, current)
    ensures Behind(eager, dynamic, entries + {e}, queue + [e], current)
  {
    forall n, b | (n, b) in entries + {e} && (n, b) !in queue + [e] && (n, b) !in current
      ensures Expanded(eager, dynamic, entries + {e}, n, b)
    {
      assert e in queue + [e];
      assert (n, b) in entries && (n, b) !in queue;
    }
  }

  ghost function AllEntries(start: Node, eager: Adjacency<Node>, dynamic: Adjacency<Node>): set<Entry> {
    set n, b | n in {start} + Targets(eager) + Targets(dynamic) && b in {false, true} :: (n, b)
  }

  /** Once nothing is queued, the seen entries hold every node behind a dynamic edge. */
  lemma BehindIsComplete(union: Adjacency<Node>, eager: Adjacency<Node>, dynamic: Adjacency<Node>, start: Node,
                         entries: set<Entry>, x: Node)
    requires IsUnion(union, eager, dynamic) && (start, false) in entries && Behind(eager, dynamic, entries, [], {})
    requires Crosses(union, dynamic, start, x)
    ensures (x, true) in entries
  {
    hide Reach;
    var crossed := set e: Entry | e in entries && e.1 :: e.0;
    var any := set e: Entry | e in entries :: e.0;
    forall n, b | (n, b) in entries ensures Expanded(eager, dynamic, entries, n, b) {
    }
    forall n ensures n in crossed <==> (n, true) in entries {
    }
    forall n ensures n in any <==> (n, true) in entries || (n, false) in entries {
    }
    assert Closed(union, crossed) && Closed(union, any);
    var a, b :| Reach(union, start, a) && b in Next(dynamic, a) && Reach(union, b, x);
    assert (start, false) in entries;
    ClosedReach(union, any, start, a);
    ClosedReach(union, crossed, b, x);
  }


  lemma StartLayered(union: Adjacency<Node>, eager: Adjacency<Node>, dynamic: Adjacency<Node>, start: Node)
    ensures Layered(union, dynamic, start, {(start, false)}, {Key(start, false)}, [], [(start, false)])
    ensures Behind(eager, dynamic, {(start, false)}, [(start, false)], {})
    ensures {(start, false)} <= AllEntries(start, eager, dynamic)
  {
    hide Reach, Crosses, Key;
    ReachSelf(union, start);
    assert (start, false) in [(start, false)];
    forall n, b ensures Key(n, b) in {Key(start, false)} <==> (n, b) in {(start, false)} {
      KeyInjective(n, start, b, false);
    }
  }

  /** Taking the first entry off the queue leaves only that entry to be expanded. */
  lemma Shift(union: Adjacency<Node>, eager: Adjacency<Node>, dynamic: Adjacency<Node>, start: Node, entries: set<Entry>,
              seen: set<string>, reached: seq<Node>, queue: seq<Entry>)
    requires queue != [] && Layered(union, dynamic, start, entries, seen, reached, queue)
    requires Behind(eager, dynamic, entries, queue, {})
    ensures Layered(union, dynamic, start, entries, seen, reached, queue[1..]) && queue[0] in entries
    ensures Behind(eager, dynamic, entries, queue[1..], {queue[0]})
    ensures Reach(union, start, queue[0].0) && (queue[0].1 ==> Crosses(union, dynamic, start, queue[0].0))
  {
    hide Reach, Crosses, Key, Distinct, Expanded;
    assert queue == [queue[0]] + queue[1..];
    assert forall e :: e in queue <==> e == queue[0] || e in queue[1..];
    var (n, b) := queue[0];
    assert queue[0] == (n, b);
  }

  /** The edges out of a reached entry lead to nodes that are reached, behind a dynamic edge when due. */
  lemma OfferReached(union: Adjacency<Node>, eager: Adjacency<Node>, dynamic: Adjacency<Node>, start: Node,
                     current: Node, crossed: bool, next: Node)
    requires IsUnion(union, eager, dynamic)
    requires Reach(union, start, current) && (crossed ==> Crosses(union, dynamic, start, current))
    requires next in Next(eager, current) || next in Next(dynamic, current)
    ensures Reach(union, start, next)
    ensures crossed ==> Crosses(union, dynamic, start, next)
    ensures next in Next(dynamic, current) ==> Crosses(union, dynamic, start, next)
  {
    hide Reach, Crosses;
    ReachEdge(union, current, next);
    ReachTrans(union, start, current, next);
    if crossed {
      CrossesFurther(union, dynamic, start, current, next);
    }
    if next in Next(dynamic, current) {
      CrossesNow(union, dynamic, start, current, next);
    }
  }

  lemma LayeredFacts(union: Adjacency<Node>, dynamic: Adjacency<Node>, start: Node, entries: set<Entry>,
                     seen: set<string>, reached: seq<Node>, queue: seq<Entry>, n: Node, b: bool)
    requires Layered(union, dynamic, start, entries, seen, reached, queue)
    ensures Key(n, b) in seen <==> (n, b) in entries
    ensures n in reached <==> n != start && (n, true) in entries
    ensures (start, false) in entries && Distinct(reached)
    ensures (n, true) in entries ==> Crosses(union, dynamic, start, n)
  {
    hide Reach, Crosses, Key, Distinct;
  }

  /** The successors of `current` are among the entries the search can ever see. */
  lemma NextInAll(start: Node, eager: Adjacency<Node>, dynamic: Adjacency<Node>, current: Node)
    ensures forall y, b :: y in Next(eager, current) || y in Next(dynamic, current) ==> (y, b) in AllEntries(start, eager, dynamic)
  {
  }

  lemma ExpandCurrent(eager: Adjacency<Node>, dynamic: Adjacency<Node>, entries: set<Entry>, queue: seq<Entry>,
                      current: Node, crossed: bool)
    requires Behind(eager, dynamic, entries, queue, {(current, crossed)})
    requires Expanded(eager, dynamic, entries, current, crossed)
    ensures Behind(eager, dynamic, entries, queue, {})
  {
  }

  /**
   * The sorted list of the nodes other than `start` on a path from `start` that crosses a dynamic edge;
   * `union` names the graph of all edges.
   */
  method DynamicReachableFrom(start: Node, eager: Adjacency<Node>, dynamic: Adjacency<Node>, ghost union: Adjacency<Node>)
    returns (sorted: seq<Node>)
    requires IsUnion(union, eager, dynamic)
    ensures forall x :: x in sorted <==> x != start && Crosses(union, dynamic, start, x)
    ensures SortedBy(CompareStrings, sorted) && Distinct(sorted)
  {
    hide Reach, Crosses, Key, Layered, Behind, SortedBy, Distinct, AllEntries, IsUnion;
    var reached: seq<Node> := [];
    var seen := {Key(start, false)};
    var queue: seq<Entry> := [(start, false)];
    ghost var entries: set<Entry> := {(start, false)};
    StartLayered(union, eager, dynamic, start);
    while queue != []
      invariant Layered(union, dynamic, start, entries, seen, reached, queue)
      invariant Behind(eager, dynamic, entries, queue, {})
      invariant entries <= AllEntries(start, eager, dynamic)
      decreases AllEntries(start, eager, dynamic) - entries, |queue|
    {
      var (current, crossed) := queue[0];
      Shift(union, eager, dynamic, start, entries, seen, reached, queue);
      NextInAll(start, eager, dynamic, current);
      queue := queue[1..];
      ghost var base, rest := entries, queue;
      for k := 0 to |Next(eager, current)|
        invariant Layered(union, dynamic, start, entries, seen, reached, queue)
        invariant Behind(eager, dynamic, entries, queue, {(current, crossed)})
        invariant base <= entries <= AllEntries(start, eager, dynamic) && (entries == base ==> queue == rest)
        invariant forall j :: 0 <= j < k ==> (Next(eager, current)[j], crossed) in entries
      {
        var next := Next(eager, current)[k];
        LayeredFacts(union, dynamic, start, entries, seen, reached, queue, next, crossed);
        if Key(next, crossed) !in seen {
          OfferReached(union, eager, dynamic, start, current, crossed, next);
          AddEntry(union, dynamic, start, entries, seen, reached, queue, next, crossed);
          AddKeepsBehind(eager, dynamic, entries, queue, {(current, crossed)}, (next, crossed));
          seen := seen + {Key(next, crossed)};
          if crossed && next != start {
            reached := reached + [next];
          }
          queue := queue + [(next, crossed)];
          entries := entries + {(next, crossed)};
        }
      }
      for k := 0 to |Next(dynamic, current)|
        invariant Layered(union, dynamic, start, entries, seen, reached, queue)
        invariant Behind(eager, dynamic, entries, queue, {(current, crossed)})
        invariant base <= entries <= AllEntries(start, eager, dynamic) && (entries == base ==> queue == rest)
        invariant forall y :: y in Next(eager, current) ==> (y, crossed) in entries
        invariant forall j :: 0 <= j < k ==> (Next(dynamic, current)[j], true) in entries
      {
        var next := Next(dynamic, current)[k];
        LayeredFacts(union, dynamic, start, entries, seen, reached, queue, next, true);
        if Key(next, true) !in seen {
          OfferReached(union, eager, dynamic, start, current, crossed, next);
          AddEntry(union, dynamic, start, entries, seen, reached, queue, next, true);
          AddKeepsBehind(eager, dynamic, entries, queue, {(current, crossed)}, (next, true));
          seen := seen + {Key(next, true)};
          if next != start {
            reached := reached + [next];
          }
          queue := queue + [(next, true)];
          entries := entries + {(next, true)};
        }
      }
      ExpandCurrent(eager, dynamic, entries, queue, current, crossed);
    }
    forall x ensures x in reached <==> x != start && Crosses(union, dynamic, start, x) {
      LayeredFacts(union, dynamic, start, entries, seen, reached, queue, x, true);
      if Crosses(union, dynamic, start, x) {
        BehindIsComplete(union, eager, dynamic, start, entries, x);
      }
    }
    LayeredFacts(union, dynamic, start, entries, seen, reached, queue, start, true);
    sorted := Sort(CompareStrings, reached);
    CompareStringsIsComparator();
    SortSorts(CompareStrings, reached);
    SortElements(CompareStrings, reached);
  }

  lemma LeadsReach(g: Adjacency<Node>, a: Node, w: Walk<Node>, x: Node)
    requires Leads(g, a, w, x)
    ensures Reach(g, a, x)
  {
  }

  lemma {:induction false} WalkSplits(union: Adjacency<Node>, eager: Adjacency<Node>, dynamic: Adjacency<Node>,
                                      a: Node, w: Walk<Node>, x: Node)
    requires IsUnion(union, eager, dynamic) && Leads(union, a, w, x)
    ensures Reach(eager, a, x) || Crosses(union, dynamic, a, x)
    decreases w
  {
    hide Reach;
    ReachSelf(eager, a);
    ReachSelf(union, a);
    if w.Go? {
      var n := w.node;
      WalkSplits(union, eager, dynamic, n, w.rest, x);
      LeadsReach(union, n, w.rest, x);
      ReachEdge(union, a, n);
      if n in Next(dynamic, a) {
        assert Crosses(union, dynamic, a, x);
      } else if Reach(eager, n, x) {
        ReachEdge(eager, a, n);
        ReachTrans(eager, a, n, x);
      } else {
        var c, d :| Reach(union, n, c) && d in Next(dynamic, c) && Reach(union, d, x);
        ReachTrans(union, a, n, c);
      }
    }
  }

  lemma {:induction false} EagerWalkInUnion(union: Adjacency<Node>, eager: Adjacency<Node>, dynamic: Adjacency<Node>,
                                            a: Node, w: Walk<Node>, x: Node)
    requires IsUnion(union, eager, dynamic) && Leads(eager, a, w, x)
    ensures Leads(union, a, w, x)
    decreases w
  {
    if w.Go? {
      EagerWalkInUnion(union, eager, dynamic, w.node, w.rest, x);
    }
  }

  /** The closure of the whole graph is the eager closure together with what lies behind dynamic edges. */
  lemma UnionClosureSplits(union: Adjacency<Node>, eager: Adjacency<Node>, dynamic: Adjacency<Node>, start: Node)
    requires IsUnion(union, eager, dynamic)
    ensures forall x :: Reachable(union, start, x) <==>
                        Reachable(eager, start, x) || (x != start && Crosses(union, dynamic, start, x))
  {
    forall x | x != start ensures Reach(union, start, x) <==> Reach(eager, start, x) || Crosses(union, dynamic, start, x) {
      if Reach(union, start, x) {
        var w :| Leads(union, start, w, x);
        WalkSplits(union, eager, dynamic, start, w, x);
      } else if Reach(eager, start, x) {
        var w :| Leads(eager, start, w, x);
        EagerWalkInUnion(union, eager, dynamic, start, w, x);
      } else if Crosses(union, dynamic, start, x) {
        var a, b :| Reach(union, start, a) && b in Next(dynamic, a) && Reach(union, b, x);
        ReachEdge(union, a, b);
        ReachTrans(union, start, a, b);
        ReachTrans(union, start, b, x);
      }
    }
  }
}
