/** Version precedence as section 11 of Semantic Versioning 2.0.0 orders it, and that it is a total order. */
module Precedence {
  import opened Sorting

  // A prerelease identifier: a number, or text with something other than digits in it.
  datatype Ident = Num(n: int) | Alpha(s: string)

  datatype Version = Version(major: int, minor: int, patch: int, pre: seq<Ident>)

  function Sign(n: int): int {
    if n < 0 then -1 else if n > 0 then 1 else 0
  }

  /** Numbers compare by value and come before text, which compares in ASCII order. */
  function OrderIdent(a: Ident, b: Ident): (r: int)
    ensures r == 0 <==> a == b
  {
    match (a, b)
    case (Num(m), Num(n)) => Sign(m - n)
    case (Num(_), Alpha(_)) => -1
    case (Alpha(_), Num(_)) => 1
    case (Alpha(s), Alpha(t)) => CompareStrings(s, t)
  }

  /** The first difference decides; a list that runs out first comes first. */
  function OrderList(a: seq<Ident>, b: seq<Ident>): (r: int)
    ensures r == 0 <==> a == b
  {
    if a == [] || b == [] then Sign(|a| - |b|)
    else
      assert a == [a[0]] + a[1..] && b == [b[0]] + b[1..];
      if a[0] != b[0] then OrderIdent(a[0], b[0]) else OrderList(a[1..], b[1..])
  }

  /** A version without prerelease identifiers comes after those with some. */
  function OrderPre(a: seq<Ident>, b: seq<Ident>): (r: int)
    ensures r == 0 <==> a == b
  {
    if a == [] || b == [] then Sign(|b| - |a|) else OrderList(a, b)
  }

  function Order(a: Version, b: Version): (r: int)
    ensures r == 0 <==> a == b
  {
    if a.major != b.major then Sign(a.major - b.major)
    else if a.minor != b.minor then Sign(a.minor - b.minor)
    else if a.patch != b.patch then Sign(a.patch - b.patch)
    else OrderPre(a.pre, b.pre)
  }

  lemma OrderIdentFlip(a: Ident, b: Ident)
    ensures OrderIdent(a, b) == -OrderIdent(b, a)
  {
    if a.Alpha? && b.Alpha? {
      CompareStringsFlip(a.s, b.s);
    }
  }

  lemma {:induction false} OrderListFlip(a: seq<Ident>, b: seq<Ident>)
    ensures OrderList(a, b) == -OrderList(b, a)
  {
    if a != [] && b != [] {
      OrderIdentFlip(a[0], b[0]);
      OrderListFlip(a[1..], b[1..]);
    }
  }

  lemma OrderFlip(a: Version, b: Version)
    ensures Order(a, b) == -Order(b, a)
  {
    OrderListFlip(a.pre, b.pre);
  }

  lemma OrderIdentTrans(a: Ident, b: Ident, c: Ident)
    requires OrderIdent(a, b) <= 0 && OrderIdent(b, c) <= 0
    ensures OrderIdent(a, c) <= 0
  {
    if a.Alpha? && b.Alpha? && c.Alpha? {
      CompareStringsTrans(a.s, b.s, c.s);
    }
  }

  lemma {:induction false} OrderListTrans(a: seq<Ident>, b: seq<Ident>, c: seq<Ident>)
    requires OrderList(a, b) <= 0 && OrderList(b, c) <= 0
    ensures OrderList(a, c) <= 0
  {
    if a != [] && b != [] && c != [] {
      if a[0] == b[0] == c[0] {
        OrderListTrans(a[1..], b[1..], c[1..]);
      } else {
        OrderIdentTrans(a[0], b[0], c[0]);
        if a[0] == c[0] {
          OrderIdentFlip(a[0], b[0]);
        }
      }
    }
  }

  lemma OrderTrans(a: Version, b: Version, c: Version)
    requires Order(a, b) <= 0 && Order(b, c) <= 0
    ensures Order(a, c) <= 0
  {
    if a.pre != [] && b.pre != [] && c.pre != [] && OrderList(a.pre, b.pre) <= 0 && OrderList(b.pre, c.pre) <= 0 {
      OrderListTrans(a.pre, b.pre, c.pre);
    }
  }

  /** Precedence orders versions totally, and ties only equal versions. */
  lemma OrderIsTotal()
    ensures Comparator(Order)
    ensures forall a, b :: Order(a, b) == 0 <==> a == b
  {
    forall a, b ensures Order(a, b) <= 0 || Order(b, a) <= 0 {
      OrderFlip(a, b);
    }
    forall a, b, c | Order(a, b) <= 0 && Order(b, c) <= 0 ensures Order(a, c) <= 0 {
      OrderTrans(a, b, c);
    }
  }

  // The rules of section 11, one by one.

  predicate SameCore(a: Version, b: Version) {
    a.major == b.major && a.minor == b.minor && a.patch == b.patch
  }

  /** Rule 2: the first difference of major, minor and patch, in that order, decides by size. */
  lemma CoreDecides(a: Version, b: Version)
    ensures a.major < b.major ==> Order(a, b) < 0
    ensures a.major == b.major && a.minor < b.minor ==> Order(a, b) < 0
    ensures a.major == b.major && a.minor == b.minor && a.patch < b.patch ==> Order(a, b) < 0
  {
  }

  /** Rule 3: a prerelease comes before the version it precedes. */
  lemma PrereleaseBefore(a: Version, b: Version)
    requires SameCore(a, b) && a.pre != [] && b.pre == []
    ensures Order(a, b) < 0
  {
  }

  /** `a` comes before `b` by one identifier: smaller numbers first, numbers before text, text in ASCII order. */
  ghost predicate IdentBefore(a: Ident, b: Ident) {
    || (a.Num? && b.Num? && a.n < b.n)
    || (a.Num? && b.Alpha?)
    || (a.Alpha? && b.Alpha? && TextBefore(a.s, b.s))
  }

  /** The first place where the lists differ is `k`, where `a` comes before `b` or has ended. */
  ghost predicate ListBeforeAt(a: seq<Ident>, b: seq<Ident>, k: nat) {
    && k <= |a| && k < |b| && (forall i :: 0 <= i < k ==> a[i] == b[i])
    && (k == |a| || IdentBefore(a[k], b[k]))
  }

  ghost predicate ListBefore(a: seq<Ident>, b: seq<Ident>) {
    exists k :: ListBeforeAt(a, b, k)
  }

  lemma IdentBeforeIff(a: Ident, b: Ident)
    ensures OrderIdent(a, b) < 0 <==> IdentBefore(a, b)
  {
    if a.Alpha? && b.Alpha? {
      CompareStringsIff(a.s, b.s);
    }
  }

  lemma ListBeforeRest(a: seq<Ident>, b: seq<Ident>, k: nat)
    requires a != [] && b != [] && a[0] == b[0]
    ensures ListBeforeAt(a, b, k + 1) <==> ListBeforeAt(a[1..], b[1..], k)
  {
    hide IdentBefore;
    assert forall i :: 0 < i < |a| ==> a[i] == a[1..][i - 1];
    assert forall i :: 0 < i < |b| ==> b[i] == b[1..][i - 1];
    assert forall i :: 0 <= i < |a| - 1 ==> a[1..][i] == a[i + 1];
  }

  /** Rule 4: identifiers decide from left to right, and of two lists that agree the shorter comes first. */
  lemma {:induction false} ListBeforeIff(a: seq<Ident>, b: seq<Ident>)
    ensures OrderList(a, b) < 0 <==> ListBefore(a, b)
  {
    hide IdentBefore, OrderIdent;
    if a == [] || b == [] {
      assert a == [] && b != [] ==> ListBeforeAt(a, b, 0);
    } else {
      IdentBeforeIff(a[0], b[0]);
      IdentIrreflexive(a[0]);
      if a[0] != b[0] {
        assert IdentBefore(a[0], b[0]) ==> ListBeforeAt(a, b, 0);
      } else {
        ListBeforeIff(a[1..], b[1..]);
        if k: nat :| ListBeforeAt(a[1..], b[1..], k) {
          ListBeforeRest(a, b, k);
        }
        if k: nat :| ListBeforeAt(a, b, k) {
          ListBeforeRest(a, b, k - 1);
        }
      }
    }
  }

  lemma IdentIrreflexive(a: Ident)
    ensures !IdentBefore(a, a)
  {
    IdentBeforeIff(a, a);
  }

  /** All the rules together, in both directions. */
  lemma PrecedenceIff(a: Version, b: Version)
    ensures Order(a, b) < 0 <==>
      || a.major < b.major
      || (a.major == b.major && a.minor < b.minor)
      || (a.major == b.major && a.minor == b.minor && a.patch < b.patch)
      || (SameCore(a, b) && a.pre != [] && b.pre == [])
      || (SameCore(a, b) && a.pre != [] && b.pre != [] && ListBefore(a.pre, b.pre))
  {
    ListBeforeIff(a.pre, b.pre);
    hide ListBefore;
  }
}
