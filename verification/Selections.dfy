/** What is left of a sequence when some elements are picked: which, how often, and in what order. */
module Selections {

  /** `at` are the places of the elements to keep, in order. */
  ghost predicate Picked<T>(s: seq<T>, keep: T -> bool, at: seq<nat>) {
    && (forall i, j :: 0 <= i < j < |at| ==> at[i] < at[j])
    && (forall i :: 0 <= i < |at| ==> at[i] < |s|)
    && (forall p: nat :: p in at <==> p < |s| && keep(s[p]))
  }

  ghost function Listed<T>(s: seq<T>, at: seq<nat>): seq<T>
    requires forall i :: 0 <= i < |at| ==> at[i] < |s|
  {
    seq(|at|, i requires 0 <= i < |at| => s[at[i]])
  }

  lemma NonePicked<T>(s: seq<T>, keep: T -> bool)
    requires s == []
    ensures Picked(s, keep, []) && Listed(s, []) == []
  {
  }

  lemma PickedMore<T>(s: seq<T>, keep: T -> bool, at: seq<nat>)
    requires s != [] && Picked(s[..|s| - 1], keep, at)
    ensures var n := |s| - 1;
      var at' := if keep(s[n]) then at + [n] else at;
      && Picked(s, keep, at')
      && Listed(s, at') == Listed(s[..n], at) + if keep(s[n]) then [s[n]] else []
  {
    var n := |s| - 1;
    var at' := if keep(s[n]) then at + [n] else at;
    PickedPlaces(s, keep, at);
    hide Picked;
    ListedMore(s, at);
    assert Listed(s, at) + [] == Listed(s, at);
  }

  lemma PickedPlaces<T>(s: seq<T>, keep: T -> bool, at: seq<nat>)
    requires s != [] && Picked(s[..|s| - 1], keep, at)
    ensures Picked(s, keep, if keep(s[|s| - 1]) then at + [|s| - 1] else at)
    ensures forall i :: 0 <= i < |at| ==> at[i] < |s| - 1
  {
    var n := |s| - 1;
    var at' := if keep(s[n]) then at + [n] else at;
    forall p: nat ensures p in at' <==> p < |s| && keep(s[p]) {
      assert p < n ==> s[..n][p] == s[p];
    }
  }

  lemma ListedMore<T>(s: seq<T>, at: seq<nat>)
    requires s != [] && forall i :: 0 <= i < |at| ==> at[i] < |s| - 1
    ensures Listed(s, at) == Listed(s[..|s| - 1], at)
    ensures Listed(s, at + [|s| - 1]) == Listed(s, at) + [s[|s| - 1]]
  {
  }
}
