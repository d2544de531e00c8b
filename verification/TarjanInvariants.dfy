/** Tarjan's strongly connected components: the invariants of the search and the lemmas that keep them. */
module TarjanInvariants {
  import opened Common
  import opened Graphs
  import opened Sorting

  // The visit numbers, the low links, the next number, and the nodes on the stack. The stack's
  // order is the order of the numbers, so the invariants speak of it as a set.
  datatype State<T> = State(indices: map<T, int>, low: map<T, int>, index: int, on: set<T>) {

    ghost predicate WellFormed() {
      && on <= indices.Keys == low.Keys
      && (forall x :: x in indices ==> indices[x] < index)
      && (forall x, y :: x in on && y in on && indices[x] == indices[y] ==> x == y)
    }

    /** The visited nodes whose components have been popped. */
    ghost function Finished(): set<T> {
      indices.Keys - on
    }

    function Push(name: T): State<T> {
      State(indices[name := index], low[name := index], index + 1, on + {name})
    }

    function Lower(name: T, bound: int): State<T>
      requires name in low
    {
      this.(low := low[name := Min(low[name], bound)])
    }

    /** The part of the stack at or above `name`. */
    ghost function Above(name: T): set<T>
      requires WellFormed() && name in indices
    {
      set x | x in on && indices[x] >= indices[name]
    }

    function Pop(nodes: set<T>): State<T> {
      this.(on := on - nodes)
    }
  }

  /** A component: non-empty, and exactly the nodes mutually reachable with any one of its members. */
  ghost predicate IsComponent<T(!new)>(g: Adjacency<T>, c: set<T>) {
    c != {} && forall x, y {:trigger Mutual(g, x, y)} :: x in c ==> (y in c <==> Mutual(g, x, y))
  }

  /** A visited node that is no longer being visited has only visited successors. */
  ghost predicate BlackInv<T(!new)>(g: Adjacency<T>, s: State<T>, gray: set<T>) {
    forall x, y :: x in s.indices && x !in gray && y in Next(g, x) ==> y in s.indices
  }

  /** Stack entries reach the entries above them. */
  ghost predicate UpInv<T(!new)>(g: Adjacency<T>, s: State<T>)
    requires s.WellFormed()
  {
    forall x, y :: x in s.on && y in s.on && s.indices[x] <= s.indices[y] ==> Reach(g, x, y)
  }

  /** `y` reaches a gray node that is no higher than itself. */
  ghost predicate Anchored<T(!new)>(g: Adjacency<T>, s: State<T>, gray: set<T>, y: T)
    requires s.WellFormed() && gray <= s.on && y in s.on
  {
    exists x :: x in gray && s.indices[x] <= s.indices[y] && Reach(g, y, x)
  }

  ghost predicate DownInv<T(!new)>(g: Adjacency<T>, s: State<T>, gray: set<T>)
    requires s.WellFormed() && gray <= s.on
  {
    forall y {:trigger Anchored(g, s, gray, y)} :: y in s.on ==> Anchored(g, s, gray, y)
  }

  /** The invariant of the search; `gray` are the nodes whose visits are under way. */
  ghost predicate Inv<T(!new)>(g: Adjacency<T>, s: State<T>, gray: set<T>) {
    && s.WellFormed() && gray <= s.on
    && BlackInv(g, s, gray)
    && Closed(g, s.Finished())
    && UpInv(g, s)
    && DownInv(g, s, gray)
  }

  /** `bound` is the number of an entry of `base` that `name` reaches. */
  ghost predicate Witnessed<T(!new)>(g: Adjacency<T>, s: State<T>, base: set<T>, name: T, bound: int) {
    exists y :: y in base && y in s.indices && s.indices[y] == bound && Reach(g, name, y)
  }

  /** Edges from `nodes` to stack entries below `name` lead no lower than its low link. */
  ghost predicate Bounded<T(!new)>(g: Adjacency<T>, s: State<T>, nodes: set<T>, name: T)
    requires s.WellFormed() && name in s.indices
  {
    forall x, y :: x in nodes && y in s.on && s.indices[y] < s.indices[name] && y in Next(g, x)
      ==> s.low[name] <= s.indices[y]
  }

  /** What a visit keeps of the state it starts from: new nodes get new numbers. */
  ghost predicate Extends<T(!new)>(s0: State<T>, s: State<T>) {
    && s0.on <= s.on && s0.index <= s.index
    && (forall x :: x in s0.indices ==> x in s.indices && s.indices[x] == s0.indices[x] && (x in s.on <==> x in s0.on))
    && (forall x :: x in s.indices && x !in s0.indices ==> s.indices[x] >= s0.index)
    && (forall x :: x in s0.low ==> x in s.low && s.low[x] == s0.low[x])
  }

  /** `name`, numbered first since `s0`, is being explored and its low link is right so far. */
  ghost predicate Exploring<T(!new)>(g: Adjacency<T>, s0: State<T>, s: State<T>, name: T) {
    && s0.WellFormed() && s.WellFormed() && Extends(s0, s)
    && name !in s0.indices && name in s.on && s.indices[name] == s0.index < s.index
    && s.low[name] <= s.indices[name]
    && Witnessed(g, s, s0.on + {name}, name, s.low[name])
    && Bounded(g, s, s.Above(name) - {name}, name)
    && (forall x :: x in s.indices ==> x in s0.indices || Reach(g, name, x))
  }

  /** The successors in `done` are visited, and those below `name` on the stack respect its low link. */
  ghost predicate Explored<T(!new)>(s: State<T>, name: T, done: seq<T>) {
    && s.WellFormed() && name in s.indices
    && forall y :: y in done ==>
         y in s.indices && (y in s.on && s.indices[y] < s.indices[name] ==> s.low[name] <= s.indices[y])
  }

  /** What a finished visit of `name` has done to the state `s0`. */
  ghost predicate Visited<T(!new)>(g: Adjacency<T>, s0: State<T>, s: State<T>, name: T) {
    && s0.WellFormed() && s.WellFormed() && Extends(s0, s)
    && name !in s0.indices && name in s.indices && s.indices[name] == s0.index < s.index
    && Bounded(g, s, s.Above(name), name)
    && (name in s.on ==> s.low[name] < s.indices[name] && Witnessed(g, s, s0.on, name, s.low[name]))
    && (name !in s.on ==> s.low[name] == s.indices[name])
    && (forall x :: x in s.indices ==> x in s0.indices || Reach(g, name, x))
  }

  // Entering a visit.

  lemma PushKeepsUp<T(!new)>(g: Adjacency<T>, s: State<T>, gray: set<T>, name: T)
    requires Inv(g, s, gray) && name !in s.indices && forall x :: x in gray ==> Reach(g, x, name)
    ensures UpInv(g, s.Push(name))
  {
    ReachSelf(g, name);
    forall x | x in s.on ensures Reach(g, x, name) {
      assert Anchored(g, s, gray, x);
      var z :| z in gray && Reach(g, x, z);
      ReachTrans(g, x, z, name);
    }
  }

  lemma PushKeepsDown<T(!new)>(g: Adjacency<T>, s: State<T>, gray: set<T>, name: T)
    requires Inv(g, s, gray) && name !in s.indices
    ensures DownInv(g, s.Push(name), gray + {name})
  {
    ReachSelf(g, name);
    var s' := s.Push(name);
    forall y | y in s.on ensures Anchored(g, s', gray + {name}, y) {
      assert Anchored(g, s, gray, y);
      var x :| x in gray && s.indices[x] <= s.indices[y] && Reach(g, y, x);
      assert x in gray + {name} && s'.indices[x] <= s'.indices[y];
    }
  }

  lemma PushKeepsInv<T(!new)>(g: Adjacency<T>, s: State<T>, gray: set<T>, name: T)
    requires Inv(g, s, gray) && name !in s.indices && forall x :: x in gray ==> Reach(g, x, name)
    ensures Inv(g, s.Push(name), gray + {name}) && s.Push(name).Finished() == s.Finished()
    ensures Exploring(g, s, s.Push(name), name) && Explored(s.Push(name), name, [])
  {
    PushKeepsUp(g, s, gray, name);
    PushKeepsDown(g, s, gray, name);
    ReachSelf(g, name);
    assert s.Push(name).Finished() == s.Finished();
    assert s.Push(name).Above(name) - {name} == {};
  }

  // Exploring the successors.

  /** Lowering a low link keeps the invariant, which does not mention low links. */
  lemma LowerKeepsInv<T(!new)>(g: Adjacency<T>, s: State<T>, gray: set<T>, name: T, bound: int)
    requires Inv(g, s, gray) && name in s.indices
    ensures Inv(g, s.Lower(name, bound), gray) && s.Lower(name, bound).Finished() == s.Finished()
  {
    var s' := s.Lower(name, bound);
    assert s'.indices.Keys == s'.low.Keys;
    forall y | y in s'.on ensures Anchored(g, s', gray, y) {
      assert Anchored(g, s, gray, y);
      var x :| x in gray && s.indices[x] <= s.indices[y] && Reach(g, y, x);
      assert s'.indices[x] <= s'.indices[y];
    }
  }

  lemma ExploreNext<T(!new)>(s: State<T>, s': State<T>, name: T, next: T, done: seq<T>)
    requires Explored(s, name, done) && s'.WellFormed() && Extends(s, s'.(low := s.low)) && s'.low.Keys >= s.low.Keys
    requires s'.low[name] <= s.low[name]
    requires next in s'.indices && (next in s'.on && s'.indices[next] < s'.indices[name] ==> s'.low[name] <= s'.indices[next])
    ensures Explored(s', name, done + [next])
  {
  }

  lemma SiblingWitness<T(!new)>(g: Adjacency<T>, s0: State<T>, s: State<T>, name: T, next: T)
    requires Exploring(g, s0, s, name) && next in Next(g, name) && next in s.on
    ensures Witnessed(g, s.Lower(name, s.indices[next]), s0.on + {name}, name, s.Lower(name, s.indices[next]).low[name])
  {
    hide Reach;
    ReachEdge(g, name, next);
    if s.indices[next] < s.low[name] {
      assert next in s0.on;
    } else {
      var w :| w in s0.on + {name} && w in s.indices && s.indices[w] == s.low[name] && Reach(g, name, w);
    }
  }

  /** Lowering the low link of a node numbered since `s0` changes nothing else. */
  lemma LowerExtends<T(!new)>(s0: State<T>, s: State<T>, name: T, bound: int)
    requires s0.WellFormed() && s.WellFormed() && Extends(s0, s) && name in s.indices && name !in s0.indices
    ensures s.Lower(name, bound).WellFormed() && Extends(s0, s.Lower(name, bound))
    ensures s.Lower(name, bound).Above(name) == s.Above(name)
  {
    assert s.Lower(name, bound).indices.Keys == s.Lower(name, bound).low.Keys;
  }

  lemma LowerBounded<T(!new)>(g: Adjacency<T>, s: State<T>, nodes: set<T>, name: T, bound: int)
    requires s.WellFormed() && name in s.indices && s.Lower(name, bound).WellFormed() && Bounded(g, s, nodes, name)
    ensures Bounded(g, s.Lower(name, bound), nodes, name)
  {
  }

  /** A successor already on the stack lowers the low link to its own number. */
  lemma AfterSibling<T(!new)>(g: Adjacency<T>, s0: State<T>, s: State<T>, name: T, next: T, done: seq<T>)
    requires Exploring(g, s0, s, name) && Explored(s, name, done)
    requires next in Next(g, name) && next in s.on
    ensures Exploring(g, s0, s.Lower(name, s.indices[next]), name)
    ensures Explored(s.Lower(name, s.indices[next]), name, done + [next])
  {
    var s' := s.Lower(name, s.indices[next]);
    LowerExtends(s0, s, name, s.indices[next]);
    hide Reach, Witnessed, Extends, State.Above, Bounded;
    SiblingWitness(g, s0, s, name, next);
    LowerBounded(g, s, s.Above(name) - {name}, name, s.indices[next]);
    SiblingExplored(s, name, next, done);
    hide Explored, State.WellFormed;
  }

  lemma SiblingExplored<T(!new)>(s: State<T>, name: T, next: T, done: seq<T>)
    requires Explored(s, name, done) && next in s.on && s.Lower(name, s.indices[next]).WellFormed()
    ensures Explored(s.Lower(name, s.indices[next]), name, done + [next])
  {
  }

  lemma ChildExtends<T(!new)>(g: Adjacency<T>, s0: State<T>, s1: State<T>, s2: State<T>, name: T, next: T)
    requires Exploring(g, s0, s1, name) && Visited(g, s1, s2, next)
    ensures Extends(s0, s2.Lower(name, s2.low[next])) && s2.indices[name] == s1.indices[name] && name in s2.on
  {
    hide Reach, Witnessed, Bounded;
  }

  /** The low link of a visited successor points to the stack the successor found, or changes nothing. */
  lemma ChildWitness<T(!new)>(g: Adjacency<T>, s0: State<T>, s1: State<T>, s2: State<T>, name: T, next: T)
    requires Exploring(g, s0, s1, name) && next in Next(g, name) && Visited(g, s1, s2, next)
    ensures var s := s2.Lower(name, s2.low[next]); Witnessed(g, s, s0.on + {name}, name, s.low[name])
  {
    hide Reach;
    if s2.low[next] < s2.low[name] {
      var y :| y in s1.on && y in s2.indices && s2.indices[y] == s2.low[next] && Reach(g, next, y);
      ReachEdge(g, name, next);
      ReachTrans(g, name, next, y);
      assert y in s0.on;
    } else {
      var w :| w in s0.on + {name} && w in s1.indices && s1.indices[w] == s1.low[name] && Reach(g, name, w);
      assert s2.indices[w] == s2.low[name];
    }
  }

  /** An edge into the stack below `name`, from above it, respects the low link of `name` or of its child. */
  lemma ChildEdge<T(!new)>(g: Adjacency<T>, s0: State<T>, s1: State<T>, s2: State<T>, name: T, next: T, x: T, y: T)
    requires Exploring(g, s0, s1, name) && Visited(g, s1, s2, next)
    requires x in s2.on && x != name && s2.indices[x] >= s2.indices[name]
    requires y in s2.on && s2.indices[y] < s2.indices[name] && y in Next(g, x)
    ensures s2.low[name] <= s2.indices[y] || s2.low[next] <= s2.indices[y]
  {
    hide Reach, Witnessed, Next;
    if x in s1.indices {
      assert x in s1.Above(name) - {name} && y in s1.on;
    } else {
      assert x in s2.Above(next);
    }
  }

  lemma ChildBounded<T(!new)>(g: Adjacency<T>, s0: State<T>, s1: State<T>, s2: State<T>, name: T, next: T)
    requires Exploring(g, s0, s1, name) && next in Next(g, name) && Visited(g, s1, s2, next)
    ensures s2.Lower(name, s2.low[next]).WellFormed()
    ensures var s := s2.Lower(name, s2.low[next]); Bounded(g, s, s.Above(name) - {name}, name)
  {
    ChildNumbered(g, s0, s1, s2, name, next);
    hide *;
    forall x, y | Crossing(g, s2, name, x, y) ensures s2.low[name] <= s2.indices[y] || s2.low[next] <= s2.indices[y] {
      CrossingBound(g, s0, s1, s2, name, next, x, y);
    }
    LowerToChild(g, s2, name, next);
  }

  lemma ChildNumbered<T(!new)>(g: Adjacency<T>, s0: State<T>, s1: State<T>, s2: State<T>, name: T, next: T)
    requires Exploring(g, s0, s1, name) && Visited(g, s1, s2, next)
    ensures s2.WellFormed() && name in s2.indices && next in s2.indices
  {
  }

  /** An edge from above `name` to the stack below it. */
  ghost predicate Crossing<T(!new)>(g: Adjacency<T>, s: State<T>, name: T, x: T, y: T)
    requires s.WellFormed() && name in s.indices
    ensures Crossing(g, s, name, x, y) ==> y in s.indices
  {
    && x in s.on && x != name && s.indices[x] >= s.indices[name]
    && y in s.on && s.indices[y] < s.indices[name] && y in Next(g, x)
  }

  lemma CrossingBound<T(!new)>(g: Adjacency<T>, s0: State<T>, s1: State<T>, s2: State<T>, name: T, next: T, x: T, y: T)
    requires Exploring(g, s0, s1, name) && Visited(g, s1, s2, next)
    requires s2.WellFormed() && name in s2.indices && Crossing(g, s2, name, x, y)
    ensures s2.low[name] <= s2.indices[y] || s2.low[next] <= s2.indices[y]
  {
    hide Exploring, Visited, Extends;
    ChildEdge(g, s0, s1, s2, name, next, x, y);
  }

  lemma LowerToChild<T(!new)>(g: Adjacency<T>, s: State<T>, name: T, next: T)
    requires s.WellFormed() && name in s.indices && next in s.indices
    requires forall x, y :: Crossing(g, s, name, x, y) ==> s.low[name] <= s.indices[y] || s.low[next] <= s.indices[y]
    ensures s.Lower(name, s.low[next]).WellFormed()
    ensures var s' := s.Lower(name, s.low[next]); Bounded(g, s', s'.Above(name) - {name}, name)
  {
    hide Next;
    var s' := s.Lower(name, s.low[next]);
    assert s'.low.Keys == s.low.Keys;
    forall x, y | x in s'.Above(name) - {name} && y in s'.on && s'.indices[y] < s'.indices[name] && y in Next(g, x)
      ensures s'.low[name] <= s'.indices[y]
    {
      assert Crossing(g, s, name, x, y);
    }
  }

  lemma ChildReached<T(!new)>(g: Adjacency<T>, s0: State<T>, s1: State<T>, s2: State<T>, name: T, next: T)
    requires Exploring(g, s0, s1, name) && next in Next(g, name) && Visited(g, s1, s2, next)
    ensures forall x :: x in s2.indices ==> x in s0.indices || Reach(g, name, x)
  {
    hide Reach, Witnessed, Bounded;
    ReachEdge(g, name, next);
    forall x | x in s2.indices && x !in s1.indices ensures Reach(g, name, x) {
      ReachTrans(g, name, next, x);
    }
  }

  /** The recursive visit of `next` keeps the low link of `name` right. */
  lemma AfterChild<T(!new)>(g: Adjacency<T>, s0: State<T>, s1: State<T>, s2: State<T>, name: T, next: T, done: seq<T>)
    requires Exploring(g, s0, s1, name) && Explored(s1, name, done)
    requires next in Next(g, name) && Visited(g, s1, s2, next)
    ensures Exploring(g, s0, s2.Lower(name, s2.low[next]), name)
    ensures Explored(s2.Lower(name, s2.low[next]), name, done + [next])
  {
    hide Reach, Witnessed;
    ChildExtends(g, s0, s1, s2, name, next);
    ChildWitness(g, s0, s1, s2, name, next);
    ChildBounded(g, s0, s1, s2, name, next);
    ChildReached(g, s0, s1, s2, name, next);
    ExploreNext(s1, s2.Lower(name, s2.low[next]), name, next, done);
  }

  /** A successor in a finished component leaves the low link alone. */
  lemma AfterFinished<T(!new)>(s: State<T>, name: T, next: T, done: seq<T>)
    requires Explored(s, name, done) && next in s.indices && next !in s.on
    ensures Explored(s, name, done + [next])
  {
  }

  lemma ExploringFacts<T(!new)>(g: Adjacency<T>, s0: State<T>, s: State<T>, name: T)
    requires Exploring(g, s0, s, name)
    ensures s.WellFormed() && name in s.on && s0.indices.Keys <= s.indices.Keys && name !in s0.indices
  {
  }

  lemma VisitedFacts<T(!new)>(g: Adjacency<T>, s0: State<T>, s: State<T>, name: T)
    requires Visited(g, s0, s, name)
    ensures s.WellFormed() && name in s.indices && s0.indices.Keys <= s.indices.Keys && s0.on <= s.on
  {
  }

  lemma VisitedReach<T(!new)>(g: Adjacency<T>, s0: State<T>, s: State<T>, name: T)
    requires Visited(g, s0, s, name)
    ensures forall x :: x in s.indices ==> x in s0.indices || Reach(g, name, x)
  {
  }

  lemma GrayReach<T(!new)>(g: Adjacency<T>, gray: set<T>, name: T, next: T)
    requires next in Next(g, name) && forall x :: x in gray ==> Reach(g, x, name)
    ensures forall x :: x in gray + {name} ==> Reach(g, x, next)
  {
    hide Reach;
    ReachEdge(g, name, next);
    forall x | x in gray ensures Reach(g, x, next) {
      ReachTrans(g, x, name, next);
    }
  }

  // Leaving a visit.

  lemma AnchorBelow<T(!new)>(g: Adjacency<T>, s: State<T>, gray: set<T>, name: T, y: T, z: T)
    requires s.WellFormed() && gray + {name} <= s.on && y in s.on && z in gray
    requires Anchored(g, s, gray + {name}, y)
    requires Reach(g, name, z) && s.indices[z] < s.indices[name]
    ensures Anchored(g, s, gray, y)
  {
    var x :| x in gray + {name} && s.indices[x] <= s.indices[y] && Reach(g, y, x);
    if x == name {
      ReachTrans(g, y, name, z);
    }
  }

  lemma StayKeepsDown<T(!new)>(g: Adjacency<T>, s: State<T>, gray: set<T>, name: T, base: set<T>)
    requires s.WellFormed() && gray + {name} <= s.on && DownInv(g, s, gray + {name})
    requires base <= s.on && Witnessed(g, s, base, name, s.low[name]) && s.low[name] < s.indices[name]
    ensures DownInv(g, s, gray)
  {
    hide Reach;
    var w :| w in base && w in s.indices && s.indices[w] == s.low[name] && Reach(g, name, w);
    assert Anchored(g, s, gray + {name}, w);
    var z :| z in gray + {name} && s.indices[z] <= s.indices[w] && Reach(g, w, z);
    ReachTrans(g, name, w, z);
    forall y | y in s.on ensures Anchored(g, s, gray, y) {
      assert Anchored(g, s, gray + {name}, y);
      AnchorBelow(g, s, gray, name, y, z);
    }
  }

  lemma WitnessBelow<T(!new)>(g: Adjacency<T>, s: State<T>, base: set<T>, name: T)
    requires s.WellFormed() && name in s.indices && s.low[name] != s.indices[name]
    requires Witnessed(g, s, base + {name}, name, s.low[name])
    ensures Witnessed(g, s, base, name, s.low[name])
  {
  }

  /** When the root test fails, the node stays on the stack and its visit is over. */
  lemma StayKeepsInv<T(!new)>(g: Adjacency<T>, s0: State<T>, s: State<T>, gray: set<T>, name: T)
    requires Inv(g, s, gray + {name}) && Exploring(g, s0, s, name) && Explored(s, name, Next(g, name))
    requires s.low[name] != s.indices[name]
    ensures Inv(g, s, gray) && Visited(g, s0, s, name)
  {
    hide Reach, Witnessed, Anchored, UpInv;
    WitnessBelow(g, s, s0.on, name);
    StayKeepsDown(g, s, gray, name, s0.on);
  }

  /** When the root test succeeds, nothing at or above the root leads below it. */
  lemma RootIsClosed<T(!new)>(g: Adjacency<T>, s: State<T>, gray: set<T>, name: T)
    requires s.WellFormed() && name in s.indices && s.low[name] == s.indices[name]
    requires BlackInv(g, s, gray) && Closed(g, s.Finished())
    requires forall x :: x in gray ==> x in s.indices && s.indices[x] < s.indices[name]
    requires Bounded(g, s, s.Above(name), name)
    ensures Closed(g, s.Pop(s.Above(name)).Finished())
  {
    var c := s.Above(name);
    var finished := s.Pop(c).Finished();
    assert finished == s.Finished() + c;
    forall x, y | x in finished && y in Next(g, x) ensures y in finished {
      if x in c {
        assert y in s.indices;
        if y in s.on {
          assert y in c;
        } else {
          assert y in s.Finished();
        }
      } else {
        assert x in s.Finished();
      }
    }
  }

  /** When the root test succeeds, the stack from the root up is one maximal component. */
  lemma RootIsComponent<T(!new)>(g: Adjacency<T>, s: State<T>, gray: set<T>, name: T)
    requires s.WellFormed() && gray + {name} <= s.on
    requires UpInv(g, s) && DownInv(g, s, gray + {name})
    requires forall x :: x in gray ==> Reach(g, x, name)
    requires Closed(g, s.Finished()) && Closed(g, s.Pop(s.Above(name)).Finished())
    ensures IsComponent(g, s.Above(name))
  {
    hide Reach;
    var c := s.Above(name);
    assert name in c;
    forall x | x in c ensures Mutual(g, x, name) {
      assert Anchored(g, s, gray + {name}, x);
      var z :| z in gray + {name} && Reach(g, x, z);
      if z != name {
        ReachTrans(g, x, z, name);
      }
    }
    forall x, y | x in c ensures y in c <==> Mutual(g, x, y) {
      if y in c {
        ReachTrans(g, x, name, y);
        ReachTrans(g, y, name, x);
      } else if Mutual(g, x, y) {
        ClosedReach(g, s.Pop(c).Finished(), x, y);
        ClosedReach(g, s.Finished(), y, x);
      }
    }
  }

  /** Popping leaves exactly the stack the visit found. */
  lemma PopRestores<T(!new)>(g: Adjacency<T>, s0: State<T>, s: State<T>, name: T)
    requires Exploring(g, s0, s, name)
    ensures s.Pop(s.Above(name)).on == s0.on
  {
  }

  lemma PopKeepsDown<T(!new)>(g: Adjacency<T>, s0: State<T>, s: State<T>, gray: set<T>, name: T)
    requires s0.WellFormed() && gray <= s0.on && DownInv(g, s0, gray) && Exploring(g, s0, s, name)
    ensures DownInv(g, s.Pop(s.Above(name)), gray)
  {
    hide Reach, Witnessed;
    var s' := s.Pop(s.Above(name));
    PopRestores(g, s0, s, name);
    forall y | y in s'.on ensures Anchored(g, s', gray, y) {
      assert Anchored(g, s0, gray, y);
      var x :| x in gray && s0.indices[x] <= s0.indices[y] && Reach(g, y, x);
      assert s'.indices[x] <= s'.indices[y];
    }
  }

  lemma PopVisited<T(!new)>(g: Adjacency<T>, s0: State<T>, s: State<T>, name: T)
    requires Exploring(g, s0, s, name) && s.low[name] == s.indices[name]
    ensures Visited(g, s0, s.Pop(s.Above(name)), name)
  {
    hide Reach, Witnessed;
    PopRestores(g, s0, s, name);
    assert s.Pop(s.Above(name)).Above(name) == {};
  }

  lemma PopKeepsInv<T(!new)>(g: Adjacency<T>, s0: State<T>, s: State<T>, gray: set<T>, name: T)
    requires Inv(g, s0, gray) && forall x :: x in gray ==> Reach(g, x, name)
    requires Inv(g, s, gray + {name}) && Exploring(g, s0, s, name) && Explored(s, name, Next(g, name))
    requires s.low[name] == s.indices[name]
    ensures Inv(g, s.Pop(s.Above(name)), gray) && Visited(g, s0, s.Pop(s.Above(name)), name)
    ensures IsComponent(g, s.Above(name))
  {
    GrayBelow(g, s0, s, gray, name);
    RootClosedUp(g, s0, s, gray, name);
    hide Reach, Witnessed, Anchored, Bounded, BlackInv, Extends;
    RootIsComponent(g, s, gray, name);
    PopKeepsDown(g, s0, s, gray, name);
    PopKeepsRest(g, s, gray, name);
    PopVisited(g, s0, s, name);
    hide State.Above, State.Pop, DownInv, UpInv, State.WellFormed, IsComponent, Closed;
  }

  lemma GrayBelow<T(!new)>(g: Adjacency<T>, s0: State<T>, s: State<T>, gray: set<T>, name: T)
    requires Inv(g, s0, gray) && Exploring(g, s0, s, name)
    ensures s.Pop(s.Above(name)).on == s0.on && gray <= s0.on
    ensures forall x :: x in gray ==> x in s.indices && s.indices[x] < s.indices[name]
  {
    hide Reach, Witnessed, Anchored;
    PopRestores(g, s0, s, name);
  }

  lemma RootClosedUp<T(!new)>(g: Adjacency<T>, s0: State<T>, s: State<T>, gray: set<T>, name: T)
    requires Inv(g, s, gray + {name}) && Exploring(g, s0, s, name) && Explored(s, name, Next(g, name))
    requires s.low[name] == s.indices[name]
    requires forall x :: x in gray ==> x in s.indices && s.indices[x] < s.indices[name]
    ensures BlackInv(g, s, gray) && Closed(g, s.Pop(s.Above(name)).Finished())
  {
    hide Reach, Witnessed, Anchored, Extends;
    assert Bounded(g, s, s.Above(name), name);
    assert BlackInv(g, s, gray);
    RootIsClosed(g, s, gray, name);
  }

  lemma PopKeepsRest<T(!new)>(g: Adjacency<T>, s: State<T>, gray: set<T>, name: T)
    requires s.WellFormed() && name in s.indices && UpInv(g, s) && BlackInv(g, s, gray)
    ensures var s' := s.Pop(s.Above(name)); s'.WellFormed() && UpInv(g, s') && BlackInv(g, s', gray)
  {
    hide Reach;
  }

  lemma StackNeedsGray<T(!new)>(g: Adjacency<T>, s: State<T>, gray: set<T>, y: T)
    requires Inv(g, s, gray) && y in s.on
    ensures gray != {}
  {
    assert Anchored(g, s, gray, y);
  }

  /** With no visit under way the stack is empty, and the visited nodes are closed under edges. */
  lemma AllFinished<T(!new)>(g: Adjacency<T>, s: State<T>)
    requires Inv(g, s, {})
    ensures s.Finished() == s.indices.Keys && Closed(g, s.indices.Keys)
  {
    if y :| y in s.on {
      StackNeedsGray(g, s, {}, y);
    }
    assert s.Finished() == s.indices.Keys;
  }
}
