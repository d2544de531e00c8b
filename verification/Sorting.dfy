/** Array.prototype.sort as the repository uses it: a stable sort by a consistent comparator. */
module Sorting {

  /** `cmp` orders `T` totally, up to ties. */
  ghost predicate Comparator<T(!new)>(cmp: (T, T) -> int) {
    && (forall a, b :: cmp(a, b) <= 0 || cmp(b, a) <= 0)
    && (forall a, b, c :: cmp(a, b) <= 0 && cmp(b, c) <= 0 ==> cmp(a, c) <= 0)
  }

  ghost predicate SortedBy<T>(cmp: (T, T) -> int, s: seq<T>) {
    forall i, j :: 0 <= i < j < |s| ==> cmp(s[i], s[j]) <= 0
  }

  ghost predicate Distinct<T>(s: seq<T>) {
    forall i, j :: 0 <= i < j < |s| ==> s[i] != s[j]
  }

  function Insert<T>(cmp: (T, T) -> int, x: T, s: seq<T>): (r: seq<T>)
    ensures multiset(r) == multiset{x} + multiset(s)
    ensures |r| == |s| + 1
    ensures r[0] == if s == [] || cmp(x, s[0]) <= 0 then x else s[0]
  {
    if s == [] || cmp(x, s[0]) <= 0 then [x] + s
    else
      assert s == [s[0]] + s[1..];
      [s[0]] + Insert(cmp, x, s[1..])
  }

  lemma {:induction false} InsertKeepsSorted<T(!new)>(cmp: (T, T) -> int, x: T, s: seq<T>)
    requires Comparator(cmp) && SortedBy(cmp, s)
    ensures SortedBy(cmp, Insert(cmp, x, s))
  {
    if s != [] && !(cmp(x, s[0]) <= 0) {
      var rest := Insert(cmp, x, s[1..]);
      InsertKeepsSorted(cmp, x, s[1..]);
      forall j | 0 <= j < |rest| ensures cmp(s[0], rest[j]) <= 0 {
        InsertedOnly(cmp, x, s[1..], j);
      }
      ConsSorted(cmp, s[0], rest);
    }
  }

  lemma InsertedOnly<T>(cmp: (T, T) -> int, x: T, s: seq<T>, j: nat)
    requires j < |Insert(cmp, x, s)|
    ensures Insert(cmp, x, s)[j] == x || Insert(cmp, x, s)[j] in s
  {
    assert Insert(cmp, x, s)[j] in multiset(Insert(cmp, x, s));
  }

  lemma ConsSorted<T>(cmp: (T, T) -> int, x: T, s: seq<T>)
    requires SortedBy(cmp, s) && forall j :: 0 <= j < |s| ==> cmp(x, s[j]) <= 0
    ensures SortedBy(cmp, [x] + s)
  {
  }

  /** The first element of `s` that no element precedes in the order. */
  function FirstLeast<T>(cmp: (T, T) -> int, s: seq<T>): (i: nat)
    requires s != []
    ensures i < |s|
  {
    if |s| == 1 then 0
    else
      var j := FirstLeast(cmp, s[1..]);
      if cmp(s[0], s[1..][j]) <= 0 then 0 else j + 1
  }

  lemma {:induction false} FirstLeastIsLeast<T(!new)>(cmp: (T, T) -> int, s: seq<T>)
    requires Comparator(cmp) && s != []
    ensures forall k :: 0 <= k < |s| ==> cmp(s[FirstLeast(cmp, s)], s[k]) <= 0
    ensures forall k :: 0 <= k < FirstLeast(cmp, s) ==> cmp(s[k], s[FirstLeast(cmp, s)]) > 0
  {
    if |s| > 1 {
      var t := s[1..];
      FirstLeastIsLeast(cmp, t);
      forall k | 0 <= k < |s| ensures cmp(s[FirstLeast(cmp, s)], s[k]) <= 0 {
        if k > 0 {
          assert s[k] == t[k - 1];
        }
      }
      forall k | 0 <= k < FirstLeast(cmp, s) ensures cmp(s[k], s[FirstLeast(cmp, s)]) > 0 {
        if k > 0 {
          assert s[k] == t[k - 1];
        }
      }
    }
  }

  function Sort<T>(cmp: (T, T) -> int, s: seq<T>): (r: seq<T>)
    ensures multiset(r) == multiset(s)
    ensures |r| == |s|
    ensures s != [] ==> r[0] == s[FirstLeast(cmp, s)]
  {
    if s == [] then []
    else
      assert s == [s[0]] + s[1..];
      Insert(cmp, s[0], Sort(cmp, s[1..]))
  }

  lemma {:induction false} SortSorts<T(!new)>(cmp: (T, T) -> int, s: seq<T>)
    requires Comparator(cmp)
    ensures SortedBy(cmp, Sort(cmp, s))
  {
    if s != [] {
      SortSorts(cmp, s[1..]);
      InsertKeepsSorted(cmp, s[0], Sort(cmp, s[1..]));
    }
  }

  /** Sorting keeps the elements, and keeps them distinct. */
  lemma SortElements<T>(cmp: (T, T) -> int, s: seq<T>)
    ensures forall x :: x in Sort(cmp, s) <==> x in s
    ensures Distinct(s) ==> Distinct(Sort(cmp, s))
  {
    var r := Sort(cmp, s);
    forall x ensures x in r <==> x in s {
      assert x in multiset(r) <==> x in multiset(s);
    }
    if Distinct(s) {
      DistinctOnce(s);
      OnceDistinct(r);
    }
  }

  lemma OnceDistinct<T>(s: seq<T>)
    requires forall x :: x in s ==> multiset(s)[x] <= 1
    ensures Distinct(s)
  {
    forall i, j | 0 <= i < j < |s| ensures s[i] != s[j] {
      assert s == s[..j] + s[j..];
      assert multiset(s) == multiset(s[..j]) + multiset(s[j..]);
      assert s[..j][i] in multiset(s[..j]) && s[j..][0] in multiset(s[j..]);
      assert s[i] in s;
    }
  }

  lemma {:induction false} DistinctOnce<T>(s: seq<T>)
    requires Distinct(s)
    ensures forall x :: x in s ==> multiset(s)[x] <= 1
  {
    if s != [] {
      var t := s[1..];
      assert s == [s[0]] + t;
      DistinctOnce(t);
      assert s[0] !in multiset(t);
    }
  }

  /** JavaScript's `<` and default sort order on strings: code unit by code unit. */
  function CompareStrings(a: string, b: string): (r: int)
    ensures -1 <= r <= 1
    ensures r == 0 <==> a == b
  {
    if a == [] then (if b == [] then 0 else -1)
    else if b == [] then 1
    else if a[0] != b[0] then (if a[0] < b[0] then -1 else 1)
    else
      assert a == [a[0]] + a[1..] && b == [b[0]] + b[1..];
      CompareStrings(a[1..], b[1..])
  }

  lemma {:induction false} CompareStringsFlip(a: string, b: string)
    ensures CompareStrings(a, b) == -CompareStrings(b, a)
  {
    if a != [] && b != [] && a[0] == b[0] {
      CompareStringsFlip(a[1..], b[1..]);
    }
  }

  lemma {:induction false} CompareStringsTrans(a: string, b: string, c: string)
    requires CompareStrings(a, b) <= 0 && CompareStrings(b, c) <= 0
    ensures CompareStrings(a, c) <= 0
  {
    if a != [] && b != [] && c != [] && a[0] == b[0] == c[0] {
      CompareStringsTrans(a[1..], b[1..], c[1..]);
    }
  }

  lemma CompareStringsIsComparator()
    ensures Comparator(CompareStrings)
  {
    forall a, b ensures CompareStrings(a, b) <= 0 || CompareStrings(b, a) <= 0 {
      CompareStringsFlip(a, b);
    }
    forall a, b, c | CompareStrings(a, b) <= 0 && CompareStrings(b, c) <= 0
      ensures CompareStrings(a, c) <= 0
    {
      CompareStringsTrans(a, b, c);
    }
  }

  /** The texts agree up to `k`, where `a` has ended or has the smaller character. */
  ghost predicate TextBeforeAt(a: string, b: string, k: nat) {
    k <= |a| && k < |b| && (forall i :: 0 <= i < k ==> a[i] == b[i]) && (k == |a| || a[k] < b[k])
  }

  ghost predicate TextBefore(a: string, b: string) {
    exists k :: TextBeforeAt(a, b, k)
  }

  lemma TextBeforeRest(a: string, b: string, k: nat)
    requires a != [] && b != [] && a[0] == b[0]
    ensures TextBeforeAt(a, b, k + 1) <==> TextBeforeAt(a[1..], b[1..], k)
  {
    assert forall i :: 0 < i < |a| ==> a[i] == a[1..][i - 1];
    assert forall i :: 0 < i < |b| ==> b[i] == b[1..][i - 1];
    assert forall i :: 0 <= i < |a| - 1 ==> a[1..][i] == a[i + 1];
  }

  /** Texts compare by their first difference, and of two that agree the shorter comes first. */
  lemma {:induction false} CompareStringsIff(a: string, b: string)
    ensures CompareStrings(a, b) < 0 <==> TextBefore(a, b)
  {
    if a == [] || b == [] {
      assert a == [] && b != [] ==> TextBeforeAt(a, b, 0);
    } else if a[0] != b[0] {
      assert a[0] < b[0] ==> TextBeforeAt(a, b, 0);
    } else {
      CompareStringsIff(a[1..], b[1..]);
      if k: nat :| TextBeforeAt(a[1..], b[1..], k) {
        TextBeforeRest(a, b, k);
      }
      if k: nat :| TextBeforeAt(a, b, k) {
        TextBeforeRest(a, b, k - 1);
      }
    }
  }
}
