/** Tarjan's algorithm over a mutable stack, as the package-graph gate runs it. */
module Components {
  import opened Common
  import opened Graphs
  import opened Sorting
  import opened TarjanInvariants

  type Node = string

  ghost predicate Listed<T>(components: seq<seq<T>>, x: T) {
    exists k :: 0 <= k < |components| && x in components[k]
  }

  /** The reported lists are components without repetitions, pairwise disjoint, and all on cycles. */
  ghost predicate Sound<T(!new)>(g: Adjacency<T>, components: seq<seq<T>>) {
    && (forall k :: 0 <= k < |components| ==> IsComponent(g, Elements(components[k])) && Distinct(components[k]))
    && (forall k, x {:trigger x in components[k]} :: 0 <= k < |components| && x in components[k] ==> OnCycle(g, x))
    && (forall j, k :: 0 <= j < k < |components| ==> Elements(components[j]) !! Elements(components[k]))
  }

  /** The reported lists hold exactly the finished nodes that lie on cycles. */
  ghost predicate ReportInv<T(!new)>(g: Adjacency<T>, finished: set<T>, components: seq<seq<T>>) {
    && Sound(g, components)
    && (forall k :: 0 <= k < |components| ==> Elements(components[k]) <= finished)
    && (forall x {:trigger Listed(components, x)} :: x in finished && OnCycle(g, x) ==> Listed(components, x))
  }

  /** The test on a popped list is whether its nodes lie on a cycle. */
  lemma ReportTest<T(!new)>(g: Adjacency<T>, list: seq<T>, name: T)
    requires IsComponent(g, Elements(list)) && Distinct(list) && name in list
    ensures forall x :: x in list ==> (OnCycle(g, x) <==> |list| > 1 || name in Next(g, name))
  {
    assert name in Elements(list);
    forall x | x in list ensures OnCycle(g, x) <==> |list| > 1 || name in Next(g, name) {
      OnCycleIff(g, x);
      assert x in Elements(list);
      if |list| > 1 {
        var y := if x == list[0] then list[1] else list[0];
        assert y in Elements(list) && Mutual(g, x, y);
      } else {
        assert x == list[0] == name;
        assert forall y :: y != x ==> y !in Elements(list) && !Mutual(g, x, y);
      }
    }
  }

  lemma ReportKeepsInv<T(!new)>(g: Adjacency<T>, finished: set<T>, components: seq<seq<T>>, list: seq<T>)
    requires ReportInv(g, finished, components)
    requires IsComponent(g, Elements(list)) && Distinct(list) && Elements(list) !! finished
    requires forall x :: x in list ==> OnCycle(g, x)
    ensures ReportInv(g, finished + Elements(list), components + [list])
  {
    hide OnCycle, IsComponent;
    var components' := components + [list];
    assert components'[|components|] == list;
    forall x | x in finished + Elements(list) && OnCycle(g, x) ensures Listed(components', x) {
      if x in finished {
        assert Listed(components, x);
        var k :| 0 <= k < |components| && x in components[k];
        assert x in components'[k];
      }
    }
  }

  lemma SortedReport(g: Adjacency<Node>, finished: set<Node>, components: seq<seq<Node>>, component: seq<Node>)
    requires ReportInv(g, finished, components)
    requires IsComponent(g, Elements(component)) && Distinct(component) && Elements(component) !! finished
    requires forall x :: x in component ==> OnCycle(g, x)
    ensures ReportInv(g, finished + Elements(component), components + [Sort(CompareStrings, component)])
    ensures SortedBy(CompareStrings, Sort(CompareStrings, component))
  {
    hide OnCycle, IsComponent, ReportInv, Sort;
    CompareStringsIsComparator();
    SortSorts(CompareStrings, component);
    SortElements(CompareStrings, component);
    assert Elements(Sort(CompareStrings, component)) == Elements(component);
    ReportKeepsInv(g, finished, components, Sort(CompareStrings, component));
  }

  lemma SkipKeepsInv<T(!new)>(g: Adjacency<T>, finished: set<T>, components: seq<seq<T>>, list: seq<T>)
    requires ReportInv(g, finished, components)
    requires forall x :: x in list ==> !OnCycle(g, x)
    ensures ReportInv(g, finished + Elements(list), components)
  {
  }

  /** The sequence `stack` holds the set on the stack, in the order of the visit numbers. */
  ghost predicate StackOrdered<T(!new)>(s: State<T>, stack: seq<T>) {
    && s.WellFormed()
    && (forall x :: x in s.on <==> x in stack)
    && (forall i, j :: 0 <= i < j < |stack| ==> s.indices[stack[i]] < s.indices[stack[j]])
  }

  lemma PushKeepsOrder<T(!new)>(s: State<T>, stack: seq<T>, name: T)
    requires StackOrdered(s, stack) && name !in s.indices
    ensures StackOrdered(s.Push(name), stack + [name])
  {
    assert s.Push(name).indices.Keys == s.Push(name).low.Keys;
  }

  lemma LowerKeepsOrder<T(!new)>(s: State<T>, stack: seq<T>, name: T, bound: int)
    requires StackOrdered(s, stack) && name in s.indices
    ensures StackOrdered(s.Lower(name, bound), stack)
  {
    assert s.Lower(name, bound).low.Keys == s.low.Keys;
  }

  lemma OrderedDistinct<T(!new)>(s: State<T>, stack: seq<T>)
    requires StackOrdered(s, stack)
    ensures Distinct(stack)
  {
  }

  /** Read off the stack, the popped list holds exactly the entries at or above `name`. */
  lemma PoppedIsAbove<T(!new)>(s: State<T>, stack: seq<T>, name: T, p: nat, list: seq<T>)
    requires StackOrdered(s, stack) && p < |stack| && stack[p] == name
    requires |list| == |stack| - p
    requires forall k :: 0 <= k < |list| ==> list[k] == stack[|stack| - 1 - k]
    ensures Elements(list) == s.Above(name) && Distinct(list) && name in list
    ensures StackOrdered(s.Pop(Elements(list)), stack[..p])
  {
    forall i | p <= i < |stack| ensures stack[i] in list {
      assert list[|stack| - 1 - i] == stack[i];
    }
  }

  /** The working state of one run, and the recursive visit over it. */
  class Search {
    const adjacency: Adjacency<Node>
    var index: int
    var stack: seq<Node>
    var onStack: set<Node>
    var indices: map<Node, int>
    var low: map<Node, int>
    var components: seq<seq<Node>>

    constructor (adjacency: Adjacency<Node>)
      ensures this.adjacency == adjacency && Valid({}) && indices == map[]
    {
      this.adjacency := adjacency;
      index, stack, onStack, indices, low, components := 0, [], {}, map[], map[], [];
    }

    ghost function Now(): State<Node>
      reads this
    {
      State(indices, low, index, onStack)
    }

    /** `gray` are the nodes whose visits are under way. */
    ghost predicate Valid(gray: set<Node>)
      reads this
    {
      && Inv(adjacency, Now(), gray)
      && StackOrdered(Now(), stack)
      && Reports(Now().Finished())
    }

    ghost predicate Reports(finished: set<Node>)
      reads this`components
    {
      && ReportInv(adjacency, finished, components)
      && (forall k :: 0 <= k < |components| ==> SortedBy(CompareStrings, components[k]))
    }

    /** Pops the stack down to and including `name`, which stands at depth `p`. */
    method PopThrough(name: Node, ghost p: nat) returns (component: seq<Node>)
      requires p < |stack| && stack[p] == name && Distinct(stack)
      modifies this`stack, this`onStack
      ensures stack == old(stack)[..p]
      ensures |component| == |old(stack)| - p
      ensures forall k :: 0 <= k < |component| ==> component[k] == old(stack)[|old(stack)| - 1 - k]
      ensures onStack == old(onStack) - Elements(component)
    {
      component := [];
      ghost var n := |stack|;
      while true
        invariant p < n <= |old(stack)| && stack == old(stack)[..n]
        invariant |component| == |old(stack)| - n
        invariant forall k :: 0 <= k < |component| ==> component[k] == old(stack)[|old(stack)| - 1 - k]
        invariant onStack == old(onStack) - Elements(component)
        decreases n
      {
        var value := stack[|stack| - 1];
        assert value == old(stack)[n - 1];
        stack := stack[..|stack| - 1];
        onStack := onStack - {value};
        component := component + [value];
        n := n - 1;
        if value == name {
          break;
        }
      }
    }

    /** Reports a popped component, sorted, when it holds a cycle. */
    method Report(component: seq<Node>, name: Node, ghost finished: set<Node>)
      requires Reports(finished) && Elements(component) !! finished
      requires IsComponent(adjacency, Elements(component)) && Distinct(component) && name in component
      modifies this`components
      ensures Reports(finished + Elements(component))
    {
      hide IsComponent, Reach, OnCycle, ReportInv, Sort, SortedBy, CompareStrings;
      ReportTest(adjacency, component, name);
      if |component| > 1 || name in Next(adjacency, name) {
        SortedReport(adjacency, finished, components, component);
        components := components + [Sort(CompareStrings, component)];
      } else {
        SkipKeepsInv(adjacency, finished, components, component);
      }
    }

    /** Pops and reports the component rooted at `name`, which stands at depth `p`. */
    method Close(name: Node, ghost s0: State<Node>, ghost p: nat, ghost gray: set<Node>)
      requires Inv(adjacency, s0, gray) && forall x :: x in gray ==> Reach(adjacency, x, name)
      requires Valid(gray + {name}) && p < |stack| && stack[p] == name
      requires Exploring(adjacency, s0, Now(), name) && Explored(Now(), name, Next(adjacency, name))
      requires name in low && name in indices && low[name] == indices[name]
      modifies this`stack, this`onStack, this`components
      ensures Valid(gray) && stack == old(stack)[..p]
      ensures Visited(adjacency, s0, Now(), name)
    {
      hide Inv, Exploring, Explored, Visited, Reports, Reach, IsComponent, StackOrdered;
      ghost var s := Now();
      ExploringFacts(adjacency, s0, s, name);
      PopKeepsInv(adjacency, s0, s, gray, name);
      OrderedDistinct(s, stack);
      var component := PopThrough(name, p);
      PoppedIsAbove(s, old(stack), name, p, component);
      assert Now() == s.Pop(s.Above(name));
      assert Now().Finished() == s.Finished() + Elements(component);
      Report(component, name, s.Finished());
    }

    /** Numbers `name` and puts it on the stack. */
    method Enter(name: Node, ghost gray: set<Node>)
      requires Valid(gray) && name !in indices && forall x :: x in gray ==> Reach(adjacency, x, name)
      modifies this`index, this`stack, this`onStack, this`indices, this`low
      ensures Valid(gray + {name}) && stack == old(stack) + [name] && indices.Keys == old(indices).Keys + {name}
      ensures Exploring(adjacency, old(Now()), Now(), name) && Explored(Now(), name, [])
    {
      hide Inv, Exploring, Explored, Reports, Reach, StackOrdered, State.Finished;
      PushKeepsInv(adjacency, Now(), gray, name);
      PushKeepsOrder(Now(), stack, name);
      indices := indices[name := index];
      low := low[name := index];
      index := index + 1;
      stack := stack + [name];
      onStack := onStack + {name};
      assert Now() == old(Now()).Push(name);
    }

    /** Visits `name`; `gray` are the visits under way and `universe` bounds what can be visited. */
    method Visit(name: Node, ghost gray: set<Node>, ghost universe: set<Node>)
      requires Valid(gray) && name !in indices
      requires forall x :: x in gray ==> Reach(adjacency, x, name)
      requires name in universe && indices.Keys <= universe && Closed(adjacency, universe)
      modifies this
      ensures Valid(gray) && old(stack) <= stack && indices.Keys <= universe
      ensures Visited(adjacency, old(Now()), Now(), name)
      decreases universe - indices.Keys, 0
    {
      hide Inv, Exploring, Explored, Visited, Reports, Reach, IsComponent, StackOrdered;
      Enter(name, gray);
      var successors := Next(adjacency, name);
      for k := 0 to |successors|
        invariant Valid(gray + {name}) && old(stack) + [name] <= stack && indices.Keys <= universe
        invariant Exploring(adjacency, old(Now()), Now(), name)
        invariant Explored(Now(), name, successors[..k])
      {
        ExploringFacts(adjacency, old(Now()), Now(), name);
        Follow(name, successors[k], old(Now()), successors[..k], gray, universe);
        assert successors[..k + 1] == successors[..k] + [successors[k]];
      }

      assert successors[..|successors|] == successors;
      ExploringFacts(adjacency, old(Now()), Now(), name);
      if low[name] != indices[name] {
        StayKeepsInv(adjacency, old(Now()), Now(), gray, name);
        return;
      }
      Close(name, old(Now()), |old(stack)|, gray);
    }

    /** One turn of the visit's loop: follows the edge from `name` to `next`. */
    method Follow(name: Node, next: Node, ghost s0: State<Node>, ghost done: seq<Node>, ghost gray: set<Node>,
                  ghost universe: set<Node>)
      requires Valid(gray + {name}) && next in Next(adjacency, name)
      requires Exploring(adjacency, s0, Now(), name) && Explored(Now(), name, done)
      requires forall x :: x in gray ==> Reach(adjacency, x, name)
      requires name in universe && indices.Keys <= universe && Closed(adjacency, universe)
      modifies this
      ensures Valid(gray + {name}) && old(stack) <= stack && indices.Keys <= universe
      ensures Exploring(adjacency, s0, Now(), name) && Explored(Now(), name, done + [next])
      decreases universe - indices.Keys, 1
    {
      hide Inv, Exploring, Explored, Visited, Reports, Reach, IsComponent, StackOrdered;
      ghost var s := Now();
      ExploringFacts(adjacency, s0, s, name);
      if next !in indices {
        GrayReach(adjacency, gray, name, next);
        Visit(next, gray + {name}, universe);
        AfterChild(adjacency, s0, s, Now(), name, next, done);
        VisitedFacts(adjacency, s, Now(), next);
        LowerKeepsInv(adjacency, Now(), gray + {name}, name, low[next]);
        LowerKeepsOrder(Now(), stack, name, low[next]);
        low := low[name := Min(low[name], low[next])];
      } else if next in onStack {
        AfterSibling(adjacency, s0, s, name, next, done);
        LowerKeepsInv(adjacency, s, gray + {name}, name, indices[next]);
        LowerKeepsOrder(s, stack, name, indices[next]);
        low := low[name := Min(low[name], indices[next])];
      } else {
        AfterFinished(s, name, next, done);
      }
    }
  }

  ghost predicate ReachFromSome<T(!new)>(g: Adjacency<T>, names: seq<T>, x: T) {
    exists a :: a in names && Reach(g, a, x)
  }

  /** The order of the reported lists: by their first nodes, as `locale` compares them. */
  function ByFirst(locale: (Node, Node) -> int): (seq<Node>, seq<Node>) -> int {
    (a: seq<Node>, b: seq<Node>) => locale(if a == [] then "" else a[0], if b == [] then "" else b[0])
  }

  lemma ByFirstIsComparator(locale: (Node, Node) -> int)
    requires Comparator(locale)
    ensures Comparator(ByFirst(locale))
  {
  }

  lemma ReportExact<T(!new)>(g: Adjacency<T>, finished: set<T>, components: seq<seq<T>>)
    requires ReportInv(g, finished, components)
    ensures forall x :: Listed(components, x) <==> x in finished && OnCycle(g, x)
  {
    hide OnCycle, IsComponent;
    forall x | Listed(components, x) ensures x in finished && OnCycle(g, x) {
      var k :| 0 <= k < |components| && x in components[k];
      assert x in Elements(components[k]);
    }
  }

  /** No list at all means no listed node, since components are not empty. */
  lemma EmptyReport<T(!new)>(g: Adjacency<T>, components: seq<seq<T>>)
    requires Sound(g, components)
    ensures components == [] <==> forall x :: !Listed(components, x)
  {
    hide Mutual, OnCycle;
    if components != [] {
      assert components[0] != [] by {
        assert Elements(components[0]) != {};
      }
      assert Listed(components, components[0][0]);
    }
  }

  lemma NoneEmpty<T(!new)>(g: Adjacency<T>, components: seq<seq<T>>)
    requires Sound(g, components)
    ensures forall k :: 0 <= k < |components| ==> components[k] != []
  {
    hide Mutual, OnCycle;
    forall k | 0 <= k < |components| ensures components[k] != [] {
      assert Elements(components[k]) != {};
    }
  }

  lemma FirstsInOrder(locale: (Node, Node) -> int, components: seq<seq<Node>>)
    requires SortedBy(ByFirst(locale), components) && forall k :: 0 <= k < |components| ==> components[k] != []
    ensures forall i, j :: 0 <= i < j < |components| ==> locale(components[i][0], components[j][0]) <= 0
  {
    forall i, j | 0 <= i < j < |components| ensures locale(components[i][0], components[j][0]) <= 0 {
      assert ByFirst(locale)(components[i], components[j]) <= 0;
    }
  }

  /** Reordering the reported lists changes nothing they say. */
  lemma SortKeepsSound<T(!new)>(g: Adjacency<T>, cmp: (seq<T>, seq<T>) -> int, components: seq<seq<T>>)
    requires Sound(g, components)
    ensures Sound(g, Sort(cmp, components))
    ensures forall x :: Listed(Sort(cmp, components), x) <==> Listed(components, x)
  {
    hide OnCycle, Mutual, Sort;
    var sorted := Sort(cmp, components);
    SortElements(cmp, components);
    forall j, k | 0 <= j < k < |components| ensures components[j] != components[k] {
      assert components[j] != [] by {
        assert Elements(components[j]) != {};
      }
      assert components[j][0] in Elements(components[j]);
    }
    forall k | 0 <= k < |sorted| ensures sorted[k] in components {
    }
    forall j, k | 0 <= j < k < |sorted| ensures Elements(sorted[j]) !! Elements(sorted[k]) {
      var j' :| 0 <= j' < |components| && components[j'] == sorted[j];
      var k' :| 0 <= k' < |components| && components[k'] == sorted[k];
    }
    forall x ensures Listed(sorted, x) <==> Listed(components, x) {
      if k :| 0 <= k < |components| && x in components[k] {
        assert components[k] in sorted;
      }
    }
  }

  ghost function Universe(names: seq<Node>, adjacency: Adjacency<Node>): set<Node> {
    Elements(names) + adjacency.Keys + set n, m | n in adjacency && m in adjacency[n] :: m
  }

  lemma UniverseHolds(names: seq<Node>, adjacency: Adjacency<Node>)
    ensures Closed(adjacency, Universe(names, adjacency))
    ensures forall k :: 0 <= k < |names| ==> names[k] in Universe(names, adjacency)
  {
  }

  /** A set closed under edges that holds the names, and only what they reach, is what they reach. */
  lemma VisitedExactly<T(!new)>(g: Adjacency<T>, names: seq<T>, visited: set<T>)
    requires Closed(g, visited) && (forall j :: 0 <= j < |names| ==> names[j] in visited)
    requires forall x :: x in visited ==> ReachFromSome(g, names, x)
    ensures forall x :: x in visited <==> ReachFromSome(g, names, x)
  {
    hide Reach, Closed;
    forall x | ReachFromSome(g, names, x) ensures x in visited {
      var a :| a in names && Reach(g, a, x);
      ClosedReach(g, visited, a, x);
    }
  }

  /** Visits every name in turn, and gives the lists in the order they were popped. */
  method Collect(names: seq<Node>, adjacency: Adjacency<Node>) returns (components: seq<seq<Node>>)
    ensures Sound(adjacency, components)
    ensures forall x :: Listed(components, x) <==> ReachFromSome(adjacency, names, x) && OnCycle(adjacency, x)
    ensures forall k :: 0 <= k < |components| ==> SortedBy(CompareStrings, components[k])
  {
    hide Inv, Visited, Reach, IsComponent, StackOrdered, OnCycle, Sound, Listed, SortedBy, Universe, Closed;
    var search := new Search(adjacency);
    ghost var universe := Universe(names, adjacency);
    UniverseHolds(names, adjacency);
    for k := 0 to |names|
      invariant search.adjacency == adjacency && fresh(search)
      invariant search.Valid({}) && search.indices.Keys <= universe
      invariant forall j :: 0 <= j < k ==> names[j] in search.indices
      invariant forall x :: x in search.indices ==> ReachFromSome(adjacency, names, x)
    {
      var name := names[k];
      if name !in search.indices {
        ghost var s := search.Now();
        search.Visit(name, {}, universe);
        VisitedFacts(adjacency, s, search.Now(), name);
        VisitedReach(adjacency, s, search.Now(), name);
      }
    }
    AllFinished(adjacency, search.Now());
    hide ReachFromSome;
    VisitedExactly(adjacency, names, search.indices.Keys);
    ReportExact(adjacency, search.Now().Finished(), search.components);
    components := search.components;
  }

  /**
   * The components of the nodes reachable from `names` that hold a cycle: each list is one class of
   * mutually reachable nodes, sorted, and a node is listed exactly when it lies on a cycle.
   */
  method StronglyConnectedComponents(names: seq<Node>, adjacency: Adjacency<Node>, locale: (Node, Node) -> int)
    returns (components: seq<seq<Node>>)
    requires Comparator(locale)
    ensures Sound(adjacency, components)
    ensures forall x :: Listed(components, x) <==> ReachFromSome(adjacency, names, x) && OnCycle(adjacency, x)
    ensures components == [] <==> forall x :: ReachFromSome(adjacency, names, x) ==> !OnCycle(adjacency, x)
    ensures forall k :: 0 <= k < |components| ==> SortedBy(CompareStrings, components[k])
    ensures forall i, j :: 0 <= i < j < |components| ==>
      components[i] != [] && components[j] != [] && locale(components[i][0], components[j][0]) <= 0
  {
    hide ReachFromSome, OnCycle, Sound, ByFirst, Listed, SortedBy, Sort, Comparator;
    var popped := Collect(names, adjacency);
    components := Sort(ByFirst(locale), popped);
    SortKeepsSound(adjacency, ByFirst(locale), popped);
    ByFirstIsComparator(locale);
    SortSorts(ByFirst(locale), popped);
    EmptyReport(adjacency, components);
    NoneEmpty(adjacency, components);
    FirstsInOrder(locale, components);
    SortElements(ByFirst(locale), popped);
    forall k | 0 <= k < |components| ensures SortedBy(CompareStrings, components[k]) {
      assert components[k] in popped;
    }
  }
}
