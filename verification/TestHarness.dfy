/** Expanding a package's test script into the test commands it can reach. */
module TestHarness {
  import opened Common
  import opened Graphs
  import opened Sorting

  // A script body as its two patterns see it: the `bun test` commands, and the scripts it runs by name.
  datatype Script = Script(tests: seq<string>, runs: seq<string>)

  type Scripts = map<string, Script>

  function Calls(scripts: Scripts): Adjacency<string> {
    map n | n in scripts :: scripts[n].runs
  }

  /**
   * The order of first visits, by a single stack of names still to look at: a script not seen before puts
   * the scripts it runs on top of the stack, and any other name is passed over.
   */
  ghost function VisitOrder(scripts: Scripts, todo: seq<string>, seen: set<string>): (order: seq<string>)
    ensures forall n :: n in order ==> n in scripts && n !in seen
    decreases scripts.Keys - seen, |todo|
  {
    if todo == [] then []
    else
      var name := todo[0];
      if name in seen || name !in scripts then VisitOrder(scripts, todo[1..], seen)
      else [name] + VisitOrder(scripts, scripts[name].runs + todo[1..], seen + {name})
  }

  /** The test commands of the scripts in `order`, one script after the other. */
  ghost function TestsOf(scripts: Scripts, order: seq<string>): seq<string>
    requires forall n :: n in order ==> n in scripts
  {
    if order == [] then []
    else TestsOf(scripts, order[..|order| - 1]) + scripts[order[|order| - 1]].tests
  }

  lemma {:induction false} TestsJoin(scripts: Scripts, a: seq<string>, b: seq<string>)
    requires forall n :: n in a || n in b ==> n in scripts
    ensures forall n :: n in a + b ==> n in scripts
    ensures TestsOf(scripts, a + b) == TestsOf(scripts, a) + TestsOf(scripts, b)
  {
    if b == [] {
      assert a + b == a;
    } else {
      var n := |b| - 1;
      TestsJoin(scripts, a, b[..n]);
      assert (a + b)[..|a + b| - 1] == a + b[..n];
    }
  }

  // What the order of first visits holds.

  /** Names that are no scripts play no part in what was seen. */
  lemma {:induction false} SeenScriptsOnly(scripts: Scripts, todo: seq<string>, s: set<string>, t: set<string>)
    requires forall n :: n in scripts ==> (n in s <==> n in t)
    ensures VisitOrder(scripts, todo, s) == VisitOrder(scripts, todo, t)
    decreases scripts.Keys - s, |todo|
  {
    if todo != [] {
      var name := todo[0];
      if name in s || name !in scripts {
        SeenScriptsOnly(scripts, todo[1..], s, t);
      } else {
        SeenScriptsOnly(scripts, scripts[name].runs + todo[1..], s + {name}, t + {name});
      }
    }
  }

  /** Everything the first names lead to is visited before the later names are looked at. */
  lemma {:induction false} VisitJoin(scripts: Scripts, a: seq<string>, b: seq<string>, seen: set<string>)
    ensures var first := VisitOrder(scripts, a, seen);
      VisitOrder(scripts, a + b, seen) == first + VisitOrder(scripts, b, seen + Elements(first))
    decreases scripts.Keys - seen, |a|
  {
    if a == [] {
      assert a + b == b && seen + Elements([]) == seen;
    } else {
      var name := a[0];
      assert (a + b)[1..] == a[1..] + b;
      if name in seen || name !in scripts {
        VisitJoin(scripts, a[1..], b, seen);
      } else {
        var more := scripts[name].runs + a[1..];
        var rest := VisitOrder(scripts, more, seen + {name});
        VisitJoin(scripts, more, b, seen + {name});
        assert scripts[name].runs + (a + b)[1..] == more + b;
        assert seen + {name} + Elements(rest) == seen + Elements([name] + rest);
      }
    }
  }

  /** One name: itself, and then the scripts it runs, one after the other. */
  lemma VisitOne(scripts: Scripts, name: string, seen: set<string>)
    requires name in scripts && name !in seen
    ensures VisitOrder(scripts, [name], seen) == [name] + VisitOrder(scripts, scripts[name].runs, seen + {name})
  {
    assert scripts[name].runs + [name][1..] == scripts[name].runs;
  }

  ghost predicate CalledBefore(scripts: Scripts, order: seq<string>, i: nat) {
    exists j :: 0 <= j < i < |order| && order[i] in Next(Calls(scripts), order[j])
  }

  /** The order is made once and from the stack: no repetition, and every script in it was named there or by an earlier one. */
  lemma {:induction false} VisitNamed(scripts: Scripts, todo: seq<string>, seen: set<string>)
    ensures var order := VisitOrder(scripts, todo, seen);
      Distinct(order) && forall i :: 0 <= i < |order| ==> order[i] in todo || CalledBefore(scripts, order, i)
    decreases scripts.Keys - seen, |todo|
  {
    if todo != [] {
      var name := todo[0];
      if name in seen || name !in scripts {
        VisitNamed(scripts, todo[1..], seen);
      } else {
        var more := scripts[name].runs + todo[1..];
        var rest := VisitOrder(scripts, more, seen + {name});
        VisitNamed(scripts, more, seen + {name});
        var order := [name] + rest;
        forall i | 0 <= i < |order| ensures order[i] in todo || CalledBefore(scripts, order, i) {
          if i > 0 && order[i] !in todo {
            assert order[i] == rest[i - 1];
            if rest[i - 1] in more {
              assert order[i] in Next(Calls(scripts), order[0]);
            } else {
              var j :| 0 <= j < i - 1 && rest[i - 1] in Next(Calls(scripts), rest[j]);
              assert order[i] in Next(Calls(scripts), order[j + 1]);
            }
          }
        }
      }
    }
  }

  /** Nothing is missed: what was on the stack, and what a visited script runs, is visited if it is a script. */
  lemma {:induction false} VisitClosed(scripts: Scripts, todo: seq<string>, seen: set<string>)
    ensures var order := VisitOrder(scripts, todo, seen);
      && (forall n :: n in todo && n in scripts ==> n in seen || n in order)
      && (forall m, n :: m in order && n in Next(Calls(scripts), m) && n in scripts ==> n in seen || n in order)
    decreases scripts.Keys - seen, |todo|
  {
    if todo != [] {
      var name := todo[0];
      assert todo == [name] + todo[1..];
      if name in seen || name !in scripts {
        VisitClosed(scripts, todo[1..], seen);
      } else {
        VisitClosed(scripts, scripts[name].runs + todo[1..], seen + {name});
      }
    }
  }

  lemma {:induction false} CalledReachable(scripts: Scripts, name: string, order: seq<string>, i: nat)
    requires i < |order| && forall k :: 0 <= k < |order| ==> order[k] == name || CalledBefore(scripts, order, k)
    ensures Reach(Calls(scripts), name, order[i])
  {
    hide Reach;
    ReachSelf(Calls(scripts), name);
    if order[i] != name {
      var j :| 0 <= j < i && order[i] in Next(Calls(scripts), order[j]);
      CalledReachable(scripts, name, order, j);
      ReachEdge(Calls(scripts), order[j], order[i]);
      ReachTrans(Calls(scripts), name, order[j], order[i]);
    }
  }

  /** The scripts of the order and the names that are no scripts. */
  ghost function Covered(scripts: Scripts, name: string, order: seq<string>): set<string> {
    Elements(order) + (set n | n in {name} + (set p, q | p in scripts && q in scripts[p].runs :: q) && n !in scripts)
  }

  /**
   * The order of first visits from one name holds exactly the scripts it reaches, each once, starting with
   * itself, and every other one after a script that runs it.
   */
  lemma VisitsAllReachable(scripts: Scripts, name: string)
    ensures var order := VisitOrder(scripts, [name], {});
      && Distinct(order)
      && (forall n :: n in order <==> n in scripts && Reach(Calls(scripts), name, n))
      && (name in scripts ==> order != [] && order[0] == name)
      && (forall i :: 0 < i < |order| ==> CalledBefore(scripts, order, i))
  {
    hide Reach;
    var order := VisitOrder(scripts, [name], {});
    VisitNamed(scripts, [name], {});
    VisitClosed(scripts, [name], {});
    if name in scripts {
      VisitOne(scripts, name, {});
    }
    forall n | n in order ensures Reach(Calls(scripts), name, n) {
      var i :| 0 <= i < |order| && order[i] == n;
      CalledReachable(scripts, name, order, i);
    }
    var covered := Covered(scripts, name, order);
    forall n | n in scripts && Reach(Calls(scripts), name, n) ensures n in order {
      ClosedReach(Calls(scripts), covered, name, n);
    }
  }

  /** The names already expanded, shared by the whole recursion. */
  class Expansion {
    const scripts: Scripts
    var seen: set<string>

    constructor (scripts: Scripts)
      ensures this.scripts == scripts && seen == {}
    {
      this.scripts, seen := scripts, {};
    }

    method Expand(name: string) returns (found: seq<string>)
      modifies this
      ensures found == TestsOf(scripts, VisitOrder(scripts, [name], old(seen)))
      ensures old(seen) <= seen
      ensures forall n :: n in scripts ==>
        (n in seen <==> n in old(seen) || n in VisitOrder(scripts, [name], old(seen)))
      decreases scripts.Keys - seen
    {
      hide TestsOf;
      if name in seen {
        NothingNew(scripts, name, seen);
        return [];
      }
      seen := seen + {name};
      if name !in scripts {
        NothingNew(scripts, name, old(seen));
        return [];
      }
      var script := scripts[name];
      found := script.tests;
      ghost var start := seen;
      StartTests(scripts, name);
      assert [name] + VisitOrder(scripts, script.runs[..0], start) == [name];
      for k := 0 to |script.runs|
        invariant start <= seen
        invariant found == TestsOf(scripts, [name] + VisitOrder(scripts, script.runs[..k], start))
        invariant forall n :: n in scripts ==>
          (n in seen <==> n in start || n in VisitOrder(scripts, script.runs[..k], start))
      {
        ghost var before := seen;
        var more := Expand(script.runs[k]);
        NextCall(scripts, name, script.runs, k, start, before);
        found := found + more;
      }
      assert script.runs[..|script.runs|] == script.runs;
      VisitOne(scripts, name, old(seen));
    }
  }

  lemma NothingNew(scripts: Scripts, name: string, seen: set<string>)
    requires name in seen || name !in scripts
    ensures VisitOrder(scripts, [name], seen) == [] && TestsOf(scripts, []) == []
  {
  }

  lemma StartTests(scripts: Scripts, name: string)
    requires name in scripts
    ensures TestsOf(scripts, [name]) == scripts[name].tests
  {
    assert TestsOf(scripts, [name][..0]) == [];
  }

  /** Expanding the next call of a script continues the order where the earlier calls left it. */
  lemma NextCall(scripts: Scripts, name: string, runs: seq<string>, k: nat, start: set<string>, before: set<string>)
    requires k < |runs| && name in scripts
    requires forall n :: n in scripts ==> (n in before <==> n in start || n in VisitOrder(scripts, runs[..k], start))
    ensures var done, more := VisitOrder(scripts, runs[..k], start), VisitOrder(scripts, [runs[k]], before);
      && VisitOrder(scripts, runs[..k + 1], start) == done + more
      && TestsOf(scripts, [name] + VisitOrder(scripts, runs[..k + 1], start)) ==
         TestsOf(scripts, [name] + done) + TestsOf(scripts, more)
  {
    var done, more := VisitOrder(scripts, runs[..k], start), VisitOrder(scripts, [runs[k]], before);
    assert runs[..k + 1] == runs[..k] + [runs[k]];
    VisitJoin(scripts, runs[..k], [runs[k]], start);
    SeenScriptsOnly(scripts, [runs[k]], before, start + Elements(done));
    TestsJoin(scripts, [name] + done, more);
    assert [name] + (done + more) == [name] + done + more;
  }

  /** Lists the test commands that `name` reaches, script by script in the order of first visits. */
  method BunTestInvocations(scripts: Scripts, name: string) returns (found: seq<string>)
    ensures found == TestsOf(scripts, VisitOrder(scripts, [name], {}))
  {
    var expansion := new Expansion(scripts);
    found := expansion.Expand(name);
  }
}
