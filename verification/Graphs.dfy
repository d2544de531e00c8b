/** Directed graphs given as adjacency lists, and reachability along their edges. */
module Graphs {

  // A JavaScript Map from a node to a Set of nodes, each Set in its insertion order.
  type Adjacency<T> = map<T, seq<T>>

  /** The successors of `n`; a node without an entry has none. */
  function Next<T>(g: Adjacency<T>, n: T): seq<T> {
    if n in g then g[n] else []
  }

  lemma EdgeIff<T>(g: Adjacency<T>, n: T, m: T)
    ensures m in Next(g, n) <==> n in g && m in g[n]
  {
  }

  // The nodes a walk enters, in order.
  datatype Walk<T> = Stay | Go(node: T, rest: Walk<T>)

  ghost predicate Leads<T>(g: Adjacency<T>, a: T, w: Walk<T>, b: T) {
    match w
    case Stay => a == b
    case Go(n, rest) => n in Next(g, a) && Leads(g, n, rest, b)
  }

  /** `b` can be reached from `a` along zero or more edges. */
  ghost predicate Reach<T(!new)>(g: Adjacency<T>, a: T, b: T) {
    exists w :: Leads(g, a, w, b)
  }

  ghost predicate Mutual<T(!new)>(g: Adjacency<T>, a: T, b: T) {
    Reach(g, a, b) && Reach(g, b, a)
  }

  /** Some walk of at least one edge leads from `x` back to `x`. */
  ghost predicate OnCycle<T(!new)>(g: Adjacency<T>, x: T) {
    exists y :: y in Next(g, x) && Reach(g, y, x)
  }

  ghost predicate Closed<T>(g: Adjacency<T>, s: set<T>) {
    forall x, y :: x in s && y in Next(g, x) ==> y in s
  }

  lemma ReachSelf<T(!new)>(g: Adjacency<T>, a: T)
    ensures Reach(g, a, a)
  {
    assert Leads(g, a, Stay, a);
  }

  lemma ReachEdge<T(!new)>(g: Adjacency<T>, a: T, b: T)
    requires b in Next(g, a)
    ensures Reach(g, a, b)
  {
    assert Leads(g, a, Go(b, Stay), b);
  }

  lemma ReachTrans<T(!new)>(g: Adjacency<T>, a: T, b: T, c: T)
    requires Reach(g, a, b) && Reach(g, b, c)
    ensures Reach(g, a, c)
  {
    var v :| Leads(g, a, v, b);
    JoinReach(g, a, v, b, c);
  }

  lemma {:induction false} JoinReach<T(!new)>(g: Adjacency<T>, a: T, v: Walk<T>, b: T, c: T)
    requires Leads(g, a, v, b) && Reach(g, b, c)
    ensures Reach(g, a, c)
  {
    if v.Go? {
      JoinReach(g, v.node, v.rest, b, c);
      var w :| Leads(g, v.node, w, c);
      assert Leads(g, a, Go(v.node, w), c);
    }
  }

  /** A walk between two different nodes starts with an edge. */
  lemma ReachFirstEdge<T(!new)>(g: Adjacency<T>, a: T, b: T) returns (y: T)
    requires Reach(g, a, b) && a != b
    ensures y in Next(g, a) && Reach(g, y, b)
  {
    var w :| Leads(g, a, w, b);
    y := w.node;
    assert Leads(g, y, w.rest, b);
  }

  /** A set closed under edges holds everything its members reach. */
  lemma ClosedReach<T(!new)>(g: Adjacency<T>, s: set<T>, a: T, b: T)
    requires Closed(g, s) && a in s && Reach(g, a, b)
    ensures b in s
  {
    var w :| Leads(g, a, w, b);
    ClosedLeads(g, s, a, w, b);
  }

  lemma {:induction false} ClosedLeads<T>(g: Adjacency<T>, s: set<T>, a: T, w: Walk<T>, b: T)
    requires Closed(g, s) && a in s && Leads(g, a, w, b)
    ensures b in s
  {
    if w.Go? {
      ClosedLeads(g, s, w.node, w.rest, b);
    }
  }

  /** Lying on a cycle is sharing it with another node, or having a self-loop. */
  lemma OnCycleIff<T(!new)>(g: Adjacency<T>, x: T)
    ensures OnCycle(g, x) <==> x in Next(g, x) || exists y :: y != x && Mutual(g, x, y)
  {
    ReachSelf(g, x);
    if OnCycle(g, x) {
      var y :| y in Next(g, x) && Reach(g, y, x);
      ReachEdge(g, x, y);
      assert y == x || Mutual(g, x, y);
    }
    if y :| y != x && Mutual(g, x, y) {
      var z := ReachFirstEdge(g, x, y);
      ReachTrans(g, z, y, x);
    }
  }
}
