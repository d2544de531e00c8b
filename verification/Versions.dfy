/** The two version comparators: one on digit strings, for releases, and one on numbers, for updates. */
module Versions {
  import opened Common
  import opened Sorting
  import opened VersionText
  import opened Precedence

  // Digit strings and their values.

  function DigitValue(c: char): int {
    c as int - '0' as int
  }

  function Value(s: string): (v: int)
    ensures AllDigits(s) ==> v >= 0
  {
    if s == [] then 0
    else
      assert AllDigits(s) && |s| > 1 ==> AllDigits(s[..|s| - 1]);
      assert AllDigits(s) ==> 0 <= DigitValue(s[|s| - 1]);
      10 * Value(s[..|s| - 1]) + DigitValue(s[|s| - 1])
  }

  lemma ValueLast(s: string, c: char)
    ensures Value(s + [c]) == 10 * Value(s) + DigitValue(c)
  {
    assert (s + [c])[..|s|] == s;
  }

  lemma EmptyValue()
    ensures Value([]) == 0
  {
  }

  function CompareNumericIdentifier(left: string, right: string): int {
    if |left| != |right| then |left| - |right|
    else if left == right then 0
    else if CompareStrings(left, right) < 0 then -1 else 1
  }

  lemma {:induction false} CompareLast(a: string, x: char, b: string, y: char)
    requires |a| == |b|
    ensures CompareStrings(a + [x], b + [y]) ==
            if a != b then CompareStrings(a, b) else Sign(DigitValue(x) - DigitValue(y))
  {
    if a != [] {
      assert (a + [x])[1..] == a[1..] + [x] && (b + [y])[1..] == b[1..] + [y];
      assert a == [a[0]] + a[1..] && b == [b[0]] + b[1..];
      CompareLast(a[1..], x, b[1..], y);
    } else {
      assert a + [x] == [x] && b + [y] == [y];
    }
  }

  /** Digit strings of one length compare like their values. */
  lemma {:induction false} SameLengthOrder(l: string, r: string)
    requires AllDigits(l) && AllDigits(r) && |l| == |r|
    ensures CompareStrings(l, r) == Sign(Value(l) - Value(r))
  {
    hide CompareStrings, Value;
    var n := |l| - 1;
    assert l == l[..n] + [l[n]] && r == r[..n] + [r[n]] && Digit(l[n]) && Digit(r[n]);
    CompareLast(l[..n], l[n], r[..n], r[n]);
    ValueLast(l[..n], l[n]);
    ValueLast(r[..n], r[n]);
    if n > 0 {
      SameLengthOrder(l[..n], r[..n]);
      CompareStringsZero(l[..n], r[..n]);
    } else {
      assert l[..n] == [] == r[..n];
    }
  }

  lemma CompareStringsZero(a: string, b: string)
    ensures CompareStrings(a, b) == 0 <==> a == b
  {
  }

  /** Without leading zeros, the longer digit string is the larger number. */
  lemma {:induction false} LongerIsLarger(l: string, r: string)
    requires (l == [] || AllDigits(l)) && AllDigits(r) && |l| < |r| && r[0] != '0'
    ensures Value(l) < Value(r)
  {
    hide Value;
    var n, m := |r| - 1, |l| - 1;
    assert r == r[..n] + [r[n]] && Digit(r[n]);
    ValueLast(r[..n], r[n]);
    EmptyValue();
    if n == 0 {
      assert r[..n] == [];
    } else if l == [] {
      LongerIsLarger([], r[..n]);
    } else {
      assert l == l[..m] + [l[m]] && Digit(l[m]);
      ValueLast(l[..m], l[m]);
      LongerIsLarger(l[..m], r[..n]);
    }
  }

  /** Length first and then text compares digit strings without leading zeros by value. */
  lemma NumericOrder(l: string, r: string)
    requires CoreField(l) && CoreField(r)
    ensures Sign(CompareNumericIdentifier(l, r)) == Sign(Value(l) - Value(r))
    ensures Value(l) == Value(r) <==> l == r
  {
    if |l| < |r| {
      LongerIsLarger(l, r);
    } else if |l| > |r| {
      LongerIsLarger(r, l);
    } else {
      SameLengthOrder(l, r);
    }
  }

  // Captured fields and the versions they stand for, given a reading of digit strings as numbers.

  type Reading = string -> int

  function ToIdent(s: string, number: Reading): Ident {
    if AllDigits(s) then Num(number(s)) else Alpha(s)
  }

  function ToIdents(ids: seq<string>, number: Reading): (r: seq<Ident>)
    ensures |r| == |ids| && forall i :: 0 <= i < |ids| ==> r[i] == ToIdent(ids[i], number)
  {
    seq(|ids|, i requires 0 <= i < |ids| => ToIdent(ids[i], number))
  }

  function ToVersion(f: Fields, number: Reading): Version {
    Version(number(f.major), number(f.minor), number(f.patch), ToIdents(f.prerelease, number))
  }

  /** No prerelease identifier made of digits has a leading zero. */
  predicate PlainNumbers(ids: seq<string>) {
    forall i :: 0 <= i < |ids| ==> !(AllDigits(ids[i]) && LeadingZero(ids[i]))
  }

  /** The release comparator refuses a build part and leading zeros. */
  function ParseReleaseVersion(s: string): Option<Fields> {
    match ParseFields(s)
    case None => None
    case Some(f) => if f.build == [] && PlainNumbers(f.prerelease) then Some(f) else None
  }

  function CompareIdentifier(left: string, right: string): int {
    if AllDigits(left) && AllDigits(right) then CompareNumericIdentifier(left, right)
    else if AllDigits(left) != AllDigits(right) then (if AllDigits(left) then -1 else 1)
    else if left == right then 0
    else if CompareStrings(left, right) < 0 then -1 else 1
  }

  /** Comparing identifiers as text gives the order of the identifiers they stand for. */
  lemma IdentifierOrder(l: string, r: string)
    requires !(AllDigits(l) && LeadingZero(l)) && !(AllDigits(r) && LeadingZero(r))
    ensures Sign(CompareIdentifier(l, r)) == OrderIdent(ToIdent(l, Value), ToIdent(r, Value))
    ensures ToIdent(l, Value) == ToIdent(r, Value) <==> l == r
  {
    if AllDigits(l) && AllDigits(r) {
      NumericOrder(l, r);
    }
  }

  /** Skipping equal identifiers at the front changes nothing. */
  lemma {:induction false} SkipEqual(a: seq<Ident>, b: seq<Ident>, k: nat)
    requires k <= |a| && k <= |b| && forall i :: 0 <= i < k ==> a[i] == b[i]
    ensures OrderList(a, b) == OrderList(a[k..], b[k..])
  {
    if k > 0 {
      SkipEqual(a, b, k - 1);
      assert a[k - 1..][1..] == a[k..] && b[k - 1..][1..] == b[k..];
    }
  }

  /** The first place where the lists differ, or where one of them ends, decides. */
  lemma OrderAt(a: seq<Ident>, b: seq<Ident>, k: nat)
    requires k <= |a| && k <= |b| && forall i :: 0 <= i < k ==> a[i] == b[i]
    ensures k == |a| || k == |b| ==> OrderList(a, b) == Sign(|a| - |b|)
    ensures k < |a| && k < |b| && a[k] != b[k] ==> OrderList(a, b) == OrderIdent(a[k], b[k])
  {
    SkipEqual(a, b, k);
  }

  /**
   * Compares two releases; None is the thrown error. The sign of the difference is the precedence of the
   * exact versions.
   */
  method CompareReleaseVersions(left: string, right: string) returns (difference: Option<int>)
    ensures difference.Some? <==> ParseReleaseVersion(left).Some? && ParseReleaseVersion(right).Some?
    ensures difference.Some? ==>
      Sign(difference.value) == Order(ToVersion(ParseReleaseVersion(left).value, Value),
                                      ToVersion(ParseReleaseVersion(right).value, Value))
  {
    var l, r := ParseReleaseVersion(left), ParseReleaseVersion(right);
    if l.None? || r.None? {
      return None;
    }
    var d := CompareFields(l.value, r.value);
    return Some(d);
  }

  method CompareFields(l: Fields, r: Fields) returns (difference: int)
    requires Matches(l) && Matches(r) && PlainNumbers(l.prerelease) && PlainNumbers(r.prerelease)
    ensures Sign(difference) == Order(ToVersion(l, Value), ToVersion(r, Value))
  {
    var lcore, rcore := [l.major, l.minor, l.patch], [r.major, r.minor, r.patch];
    for index := 0 to |lcore|
      invariant forall j :: 0 <= j < index ==> Value(lcore[j]) == Value(rcore[j])
    {
      NumericOrder(lcore[index], rcore[index]);
      difference := CompareNumericIdentifier(lcore[index], rcore[index]);
      if difference != 0 {
        assert lcore[0] == l.major && lcore[1] == l.minor && lcore[2] == l.patch;
        return;
      }
    }
    assert lcore[0] == l.major && lcore[1] == l.minor && lcore[2] == l.patch;
    if l.prerelease == [] || r.prerelease == [] {
      if |l.prerelease| == |r.prerelease| {
        return 0;
      }
      return if l.prerelease == [] then 1 else -1;
    }
    difference := ComparePrereleases(l.prerelease, r.prerelease);
  }

  method ComparePrereleases(l: seq<string>, r: seq<string>) returns (difference: int)
    requires PlainNumbers(l) && PlainNumbers(r)
    ensures Sign(difference) == OrderList(ToIdents(l, Value), ToIdents(r, Value))
  {
    hide CompareIdentifier, Value, AllDigits, LeadingZero, CompareStrings, OrderList, OrderIdent;
    ghost var a, b := ToIdents(l, Value), ToIdents(r, Value);
    var identifiers := if |l| < |r| then |r| else |l|;
    for index := 0 to identifiers
      invariant index <= |a| && index <= |b| && forall j :: 0 <= j < index ==> a[j] == b[j]
    {
      OrderAt(a, b, index);
      if index == |l| || index == |r| {
        return if index == |l| then -1 else 1;
      }
      IdentifierOrder(l[index], r[index]);
      difference := CompareIdentifier(l[index], r[index]);
      if difference != 0 {
        return;
      }
    }
    assert a == b;
    return 0;
  }

  // The updater's versions, whose numeric fields go through JavaScript's Number.

  const SAFE_LIMIT := 0x20_0000_0000_0000

  /** A conversion of digit strings that is exact below 2^53 and, as rounding does, never reverses an order. */
  ghost predicate IsNumber(number: Reading) {
    && (forall d :: AllDigits(d) && Value(d) < SAFE_LIMIT ==> number(d) == Value(d))
    && (forall d, e {:trigger number(d), number(e)} ::
          AllDigits(d) && AllDigits(e) && Value(d) <= Value(e) ==> number(d) <= number(e))
  }

  datatype ProductVersion = ProductVersion(raw: string, version: Version)

  function ParseProductVersion(s: string, number: Reading): Option<ProductVersion> {
    match ParseFields(s)
    case None => None
    case Some(f) => if PlainNumbers(f.prerelease) then Some(ProductVersion(s, ToVersion(f, number))) else None
  }

  /** Reads the prerelease identifiers one by one, giving up at a leading zero. */
  method ReadPrerelease(ids: seq<string>, number: Reading) returns (prerelease: Option<seq<Ident>>)
    ensures prerelease == if PlainNumbers(ids) then Some(ToIdents(ids, number)) else None
  {
    var read: seq<Ident> := [];
    for index := 0 to |ids|
      invariant |read| == index && forall j :: 0 <= j < index ==> read[j] == ToIdent(ids[j], number)
      invariant forall j :: 0 <= j < index ==> !(AllDigits(ids[j]) && LeadingZero(ids[j]))
    {
      var identifier := ids[index];
      if AllDigits(identifier) {
        if LeadingZero(identifier) {
          return None;
        }
        read := read + [Num(number(identifier))];
      } else {
        read := read + [Alpha(identifier)];
      }
    }
    assert read == ToIdents(ids, number);
    return Some(read);
  }

  /** Compares two product versions; None is the thrown error. */
  method CompareProductVersions(left: string, right: string, number: Reading) returns (difference: Option<int>)
    ensures difference ==
      if ParseProductVersion(left, number).Some? && ParseProductVersion(right, number).Some?
      then Some(Order(ParseProductVersion(left, number).value.version, ParseProductVersion(right, number).value.version))
      else None
  {
    hide Order, ParseProductVersion;
    var l, r := ParseProductVersion(left, number), ParseProductVersion(right, number);
    if l.None? || r.None? {
      return None;
    }
    var d := CompareVersions(l.value.version, r.value.version);
    return Some(d);
  }

  method CompareVersions(a: Version, b: Version) returns (difference: int)
    ensures difference == Order(a, b)
  {
    var acore, bcore := [a.major, a.minor, a.patch], [b.major, b.minor, b.patch];
    for key := 0 to |acore|
      invariant forall j :: 0 <= j < key ==> acore[j] == bcore[j]
    {
      if acore[key] != bcore[key] {
        assert acore[0] == a.major && acore[1] == a.minor && acore[2] == a.patch;
        return if acore[key] < bcore[key] then -1 else 1;
      }
    }
    assert acore[0] == a.major && acore[1] == a.minor && acore[2] == a.patch;
    if a.pre == [] || b.pre == [] {
      if |a.pre| == |b.pre| {
        return 0;
      }
      return if a.pre == [] then 1 else -1;
    }
    difference := CompareIdents(a.pre, b.pre);
  }

  method CompareIdents(a: seq<Ident>, b: seq<Ident>) returns (difference: int)
    ensures difference == OrderList(a, b)
  {
    var count := if |a| < |b| then |b| else |a|;
    for index := 0 to count
      invariant index <= |a| && index <= |b| && forall j :: 0 <= j < index ==> a[j] == b[j]
    {
      OrderAt(a, b, index);
      if index == |a| || index == |b| {
        return if index == |a| then -1 else 1;
      }
      var av, bv := a[index], b[index];
      if av != bv {
        match (av, bv)
        case (Num(_), Alpha(_)) => return -1;
        case (Alpha(_), Num(_)) => return 1;
        case (Num(m), Num(n)) => return if m < n then -1 else 1;
        case (Alpha(s), Alpha(t)) => return if CompareStrings(s, t) < 0 then -1 else 1;
      }
    }
    assert a == b;
    return 0;
  }

  // When the two comparators agree.

  /** `number` tells the two digit strings apart when they differ. */
  predicate Separates(number: Reading, x: string, y: string) {
    x != y ==> number(x) != number(y)
  }

  /** On one numeric field, the number comparison has the sign of the text comparison exactly when it sees the difference. */
  lemma FieldAgreesIff(x: string, y: string, number: Reading)
    requires CoreField(x) && CoreField(y) && IsNumber(number)
    ensures Sign(number(x) - number(y)) == Sign(CompareNumericIdentifier(x, y)) <==> Separates(number, x, y)
  {
    NumericOrder(x, y);
    NumericOrder(y, x);
  }

  /** Every two prerelease numbers standing at the same place are told apart when they differ. */
  predicate SeparatesList(number: Reading, p: seq<string>, q: seq<string>) {
    forall i :: 0 <= i < |p| && i < |q| && AllDigits(p[i]) && AllDigits(q[i]) ==> Separates(number, p[i], q[i])
  }

  predicate SeparatesFields(number: Reading, f: Fields, g: Fields) {
    && Separates(number, f.major, g.major) && Separates(number, f.minor, g.minor) && Separates(number, f.patch, g.patch)
    && SeparatesList(number, f.prerelease, g.prerelease)
  }

  lemma IdentAgrees(x: string, y: string, number: Reading)
    requires IsNumber(number) && !(AllDigits(x) && LeadingZero(x)) && !(AllDigits(y) && LeadingZero(y))
    requires AllDigits(x) && AllDigits(y) ==> Separates(number, x, y)
    ensures OrderIdent(ToIdent(x, number), ToIdent(y, number)) == OrderIdent(ToIdent(x, Value), ToIdent(y, Value))
    ensures ToIdent(x, number) == ToIdent(y, number) <==> x == y
    ensures ToIdent(x, Value) == ToIdent(y, Value) <==> x == y
  {
    if AllDigits(x) && AllDigits(y) {
      FieldAgreesIff(x, y, number);
      NumericOrder(x, y);
    }
  }

  lemma {:induction false} ListAgrees(p: seq<string>, q: seq<string>, number: Reading)
    requires IsNumber(number) && PlainNumbers(p) && PlainNumbers(q) && SeparatesList(number, p, q)
    ensures OrderList(ToIdents(p, number), ToIdents(q, number)) == OrderList(ToIdents(p, Value), ToIdents(q, Value))
  {
    hide IsNumber, Separates;
    if p != [] && q != [] {
      IdentAgrees(p[0], q[0], number);
      assert ToIdents(p, number)[1..] == ToIdents(p[1..], number) && ToIdents(q, number)[1..] == ToIdents(q[1..], number);
      assert ToIdents(p, Value)[1..] == ToIdents(p[1..], Value) && ToIdents(q, Value)[1..] == ToIdents(q[1..], Value);
      ListAgrees(p[1..], q[1..], number);
    }
  }

  /** Where the conversion tells differing numbers apart, the two comparators give the same sign. */
  lemma ComparatorsAgree(f: Fields, g: Fields, number: Reading)
    requires IsNumber(number) && Matches(f) && Matches(g) && PlainNumbers(f.prerelease) && PlainNumbers(g.prerelease)
    requires SeparatesFields(number, f, g)
    ensures Order(ToVersion(f, number), ToVersion(g, number)) == Order(ToVersion(f, Value), ToVersion(g, Value))
  {
    hide IsNumber;
    FieldAgreesIff(f.major, g.major, number);
    NumericOrder(f.major, g.major);
    FieldAgreesIff(f.minor, g.minor, number);
    NumericOrder(f.minor, g.minor);
    FieldAgreesIff(f.patch, g.patch, number);
    NumericOrder(f.patch, g.patch);
    hide CompareNumericIdentifier, Value;
    ListAgrees(f.prerelease, g.prerelease, number);
  }

  /** Every numeric field of the version is below 2^53. */
  predicate SafeNumbers(f: Fields) {
    && Value(f.major) < SAFE_LIMIT && Value(f.minor) < SAFE_LIMIT && Value(f.patch) < SAFE_LIMIT
    && forall i :: 0 <= i < |f.prerelease| && AllDigits(f.prerelease[i]) ==> Value(f.prerelease[i]) < SAFE_LIMIT
  }

  lemma SafeSeparates(x: string, y: string, number: Reading)
    requires CoreField(x) && CoreField(y) && IsNumber(number) && Value(x) < SAFE_LIMIT && Value(y) < SAFE_LIMIT
    ensures Separates(number, x, y)
  {
    NumericOrder(x, y);
  }

  /** Releases whose numbers are below 2^53 compare with the same sign as updates. */
  lemma SafeComparatorsAgree(s: string, t: string, number: Reading)
    requires IsNumber(number) && ParseReleaseVersion(s).Some? && ParseReleaseVersion(t).Some?
    requires SafeNumbers(ParseReleaseVersion(s).value) && SafeNumbers(ParseReleaseVersion(t).value)
    ensures ParseProductVersion(s, number).Some? && ParseProductVersion(t, number).Some?
    ensures Order(ParseProductVersion(s, number).value.version, ParseProductVersion(t, number).value.version) ==
            Order(ToVersion(ParseReleaseVersion(s).value, Value), ToVersion(ParseReleaseVersion(t).value, Value))
  {
    hide IsNumber, Value, Order, Separates;
    var f, g := ParseReleaseVersion(s).value, ParseReleaseVersion(t).value;
    ParsedIsRendered(s);
    ParsedIsRendered(t);
    hide ParseFields, Render;
    SafeSeparates(f.major, g.major, number);
    SafeSeparates(f.minor, g.minor, number);
    SafeSeparates(f.patch, g.patch, number);
    forall i | 0 <= i < |f.prerelease| && i < |g.prerelease| && AllDigits(f.prerelease[i]) && AllDigits(g.prerelease[i])
      ensures Separates(number, f.prerelease[i], g.prerelease[i])
    {
      SafeSeparates(f.prerelease[i], g.prerelease[i], number);
    }
    ComparatorsAgree(f, g, number);
  }

  /** The updater accepts what the release comparator accepts, and build parts besides. */
  lemma AcceptedAlike(s: string, number: Reading)
    ensures ParseReleaseVersion(s).Some? <==> ParseProductVersion(s, number).Some? && '+' !in s
  {
    if ParseFields(s).Some? {
      ParsedIsRendered(s);
      var f := ParseFields(s).value;
      hide ParseFields;
      CoreChars(f, '+');
      SuffixChars(f.prerelease, '-', '+');
      hide Matches;
      assert f.build != [] ==> s[|Core(f) + Suffix('-', f.prerelease)|] == '+';
    }
  }

  /** A version without prerelease and build parts. */
  function Plain(major: string, patch: string): Fields {
    Fields(major, "0", patch, [], [])
  }

  lemma PlainIsRelease(major: string, patch: string)
    requires CoreField(major) && CoreField(patch)
    ensures ParseReleaseVersion(Render(Plain(major, patch))) == Some(Plain(major, patch))
  {
    RenderedIsParsed(Plain(major, patch));
    hide ParseFields, Render;
  }

  lemma PlainOrder(major: string, patch: string, major': string, patch': string, number: Reading)
    ensures var order := Order(ToVersion(Plain(major, patch), number), ToVersion(Plain(major', patch'), number));
      && (number(major) > number(major') ==> order == 1)
      && (number(major) == number(major') && number(patch) < number(patch') ==> order == -1)
  {
    assert ToIdents([], number) == [];
  }

  lemma SmallNumbers(number: Reading)
    requires IsNumber(number)
    ensures CoreField("0") && CoreField("1")
    ensures number("0") == Value("0") == 0 && number("1") == Value("1") == 1
  {
    EmptyValue();
    ValueLast([], '0');
    ValueLast([], '1');
    assert [] + ['0'] == "0" && [] + ['1'] == "1";
  }

  /** Two numbers that the conversion confuses make the comparators disagree outright. */
  lemma CollisionDisagrees(x: string, y: string, number: Reading)
    requires IsNumber(number) && CoreField(x) && CoreField(y) && Value(x) < Value(y) && number(x) == number(y)
    ensures var f, g := Plain(y, "0"), Plain(x, "1");
      && ParseReleaseVersion(Render(f)) == Some(f) && ParseReleaseVersion(Render(g)) == Some(g)
      && Order(ToVersion(f, Value), ToVersion(g, Value)) == 1 && Order(ToVersion(f, number), ToVersion(g, number)) == -1
  {
    hide *;
    SmallNumbers(number);
    PlainIsRelease(y, "0");
    PlainIsRelease(x, "1");
    PlainOrder(y, "0", x, "1", Value);
    PlainOrder(y, "0", x, "1", number);
  }

  ghost predicate AgreeOn(f: Fields, g: Fields, number: Reading) {
    Order(ToVersion(f, number), ToVersion(g, number)) == Order(ToVersion(f, Value), ToVersion(g, Value))
  }

  ghost predicate IsRelease(f: Fields) {
    Matches(f) && f.build == [] && PlainNumbers(f.prerelease)
  }

  /** The two comparators agree on all releases exactly when the conversion confuses no two numbers. */
  lemma AgreeIffNoCollision(number: Reading)
    requires IsNumber(number)
    ensures (forall f, g :: IsRelease(f) && IsRelease(g) ==> AgreeOn(f, g, number))
       <==> (forall x, y :: CoreField(x) && CoreField(y) ==> Separates(number, x, y))
  {
    hide Value, Order, IsNumber;
    if x, y :| CoreField(x) && CoreField(y) && !Separates(number, x, y) {
      NumericOrder(x, y);
      var (lo, hi) := if Value(x) < Value(y) then (x, y) else (y, x);
      CollisionDisagrees(lo, hi, number);
      assert IsRelease(Plain(hi, "0")) && IsRelease(Plain(lo, "1"));
      assert !AgreeOn(Plain(hi, "0"), Plain(lo, "1"), number);
    } else {
      forall f, g | IsRelease(f) && IsRelease(g) ensures AgreeOn(f, g, number) {
        ComparatorsAgree(f, g, number);
      }
    }
  }

  // Collisions that do happen.

  const FIRST_UNSAFE := "9007199254740992"
  const NEXT_UNSAFE := "9007199254740993"

  /** The values of 16 digits, four at a time. */
  lemma ValueFour(s: string, a: char, b: char, c: char, d: char)
    ensures Value(s + [a, b, c, d]) ==
            10000 * Value(s) + 1000 * DigitValue(a) + 100 * DigitValue(b) + 10 * DigitValue(c) + DigitValue(d)
  {
    ValueLast(s, a);
    ValueLast(s + [a], b);
    ValueLast(s + [a] + [b], c);
    ValueLast(s + [a] + [b] + [c], d);
    assert s + [a, b, c, d] == s + [a] + [b] + [c] + [d];
  }

  lemma UnsafeValues()
    ensures CoreField(FIRST_UNSAFE) && CoreField(NEXT_UNSAFE)
    ensures Value(FIRST_UNSAFE) == SAFE_LIMIT && Value(NEXT_UNSAFE) == SAFE_LIMIT + 1
  {
    hide Value;
    EmptyValue();
    ValueFour([], '9', '0', '0', '7');
    ValueFour([] + ['9', '0', '0', '7'], '1', '9', '9', '2');
    ValueFour("90071992", '5', '4', '7', '4');
    ValueFour("900719925474", '0', '9', '9', '2');
    ValueFour("900719925474", '0', '9', '9', '3');
    assert [] + ['9', '0', '0', '7'] + ['1', '9', '9', '2'] == "90071992";
    assert "90071992" + ['5', '4', '7', '4'] == "900719925474";
    assert "900719925474" + ['0', '9', '9', '2'] == FIRST_UNSAFE;
    assert "900719925474" + ['0', '9', '9', '3'] == NEXT_UNSAFE;
  }

  /**
   * Two releases that the comparators put in opposite orders, where 2^53 and 2^53 + 1 are both read as 2^53, as
   * rounding to the nearest double reads them.
   */
  lemma RoundedReleasesDisagree(number: Reading)
    requires IsNumber(number) && number(FIRST_UNSAFE) == SAFE_LIMIT == number(NEXT_UNSAFE)
    ensures var s, t := "9007199254740993.0.0", "9007199254740992.0.1";
      && ParseReleaseVersion(s).Some? && ParseReleaseVersion(t).Some?
      && Order(ToVersion(ParseReleaseVersion(s).value, Value), ToVersion(ParseReleaseVersion(t).value, Value)) == 1
      && ParseProductVersion(s, number).Some? && ParseProductVersion(t, number).Some?
      && Order(ParseProductVersion(s, number).value.version, ParseProductVersion(t, number).value.version) == -1
  {
    hide ParseFields, Order, Value, AllDigits, LeadingZero;
    UnsafeValues();
    CollisionDisagrees(FIRST_UNSAFE, NEXT_UNSAFE, number);
    RenderPlain(NEXT_UNSAFE, "0", "0");
    RenderPlain(FIRST_UNSAFE, "0", "1");
    assert NEXT_UNSAFE + "." + "0" + "." + "0" == "9007199254740993.0.0";
    assert FIRST_UNSAFE + "." + "0" + "." + "1" == "9007199254740992.0.1";
  }

  lemma RenderPlain(x: string, y: string, z: string)
    ensures Render(Fields(x, y, z, [], [])) == x + "." + y + "." + z
  {
    var parts := [x, y, z];
    assert Join(parts[1..]) == y + "." + Join(parts[1..][1..]) && parts[1..][1..] == [z];
  }

  /** Such readings exist: reading every number from 2^53 on as 2^53 is one. */
  lemma CappedReading()
    ensures var number := (d: string) => Min(Value(d), SAFE_LIMIT);
      IsNumber(Value) && IsNumber(number) && number(FIRST_UNSAFE) == SAFE_LIMIT == number(NEXT_UNSAFE)
  {
    UnsafeValues();
    hide Value, AllDigits;
  }

  // Any reading whose results are bounded, as those of a fixed-size number are, confuses some two numbers.

  function Digits(n: nat): (s: string)
    ensures AllDigits(s) && Value(s) == n
    ensures n > 0 ==> s[0] != '0'
  {
    if n < 10 then [(n + '0' as int) as char]
    else
      var s := Digits(n / 10);
      ValueLast(s, (n % 10 + '0' as int) as char);
      s + [(n % 10 + '0' as int) as char]
  }

  lemma {:induction false} WithoutCollisionGrows(number: Reading, n: nat)
    requires IsNumber(number) && forall x, y :: CoreField(x) && CoreField(y) ==> Separates(number, x, y)
    ensures CoreField(Digits(n)) && number(Digits(n)) >= n
  {
    hide Value;
    if n > 0 {
      WithoutCollisionGrows(number, n - 1);
      assert Separates(number, Digits(n - 1), Digits(n));
    }
  }

  /** With a bounded reading the two comparators disagree on some two releases. */
  lemma BoundedReadingDisagrees(number: Reading, bound: nat)
    requires IsNumber(number) && forall d :: AllDigits(d) ==> number(d) <= bound
    ensures exists f, g :: IsRelease(f) && IsRelease(g) && !AgreeOn(f, g, number)
  {
    hide IsNumber, AgreeOn, IsRelease, Separates, CoreField;
    AgreeIffNoCollision(number);
    if forall x, y :: CoreField(x) && CoreField(y) ==> Separates(number, x, y) {
      WithoutCollisionGrows(number, bound + 1);
    }
  }

  // What the comparators say of captured fields, rule by rule.

  predicate SameIdent(x: string, y: string, number: Reading) {
    if AllDigits(x) && AllDigits(y) then number(x) == number(y) else x == y
  }

  ghost predicate IdentLess(x: string, y: string, number: Reading) {
    if AllDigits(x) && AllDigits(y) then number(x) < number(y)
    else if AllDigits(x) || AllDigits(y) then AllDigits(x)
    else TextBefore(x, y)
  }

  /** The prerelease identifiers agree up to `k`, where `p` has ended or has the smaller one. */
  ghost predicate PreLessAt(p: seq<string>, q: seq<string>, k: nat, number: Reading) {
    && k <= |p| && k < |q| && (forall i :: 0 <= i < k ==> SameIdent(p[i], q[i], number))
    && (k == |p| || IdentLess(p[k], q[k], number))
  }

  ghost predicate FieldsLess(f: Fields, g: Fields, number: Reading) {
    || number(f.major) < number(g.major)
    || (number(f.major) == number(g.major) && number(f.minor) < number(g.minor))
    || (number(f.major) == number(g.major) && number(f.minor) == number(g.minor) && number(f.patch) < number(g.patch))
    || (&& number(f.major) == number(g.major) && number(f.minor) == number(g.minor) && number(f.patch) == number(g.patch)
        && f.prerelease != []
        && (g.prerelease == [] || exists k :: PreLessAt(f.prerelease, g.prerelease, k, number)))
  }

  lemma PreLessAtIff(p: seq<string>, q: seq<string>, k: nat, number: Reading)
    ensures PreLessAt(p, q, k, number) <==> ListBeforeAt(ToIdents(p, number), ToIdents(q, number), k)
  {
    hide AllDigits;
  }

  /** On captured fields: core numbers by size, then a prerelease before its version, then identifier by identifier. */
  lemma FieldsLessIff(f: Fields, g: Fields, number: Reading)
    ensures Order(ToVersion(f, number), ToVersion(g, number)) < 0 <==> FieldsLess(f, g, number)
  {
    hide PreLessAt, ListBeforeAt, Order, ToIdent, ToIdents;
    forall k: nat ensures PreLessAt(f.prerelease, g.prerelease, k, number) <==>
      ListBeforeAt(ToIdents(f.prerelease, number), ToIdents(g.prerelease, number), k) {
      PreLessAtIff(f.prerelease, g.prerelease, k, number);
    }
    PrecedenceIff(ToVersion(f, number), ToVersion(g, number));
    SameEmptiness(f.prerelease, number);
    SameEmptiness(g.prerelease, number);
  }

  lemma SameEmptiness(ids: seq<string>, number: Reading)
    ensures ToIdents(ids, number) == [] <==> ids == []
  {
  }

  /** In both comparators a prerelease comes before the version it precedes, whatever the numbers. */
  lemma PrereleaseTextFirst(f: Fields, number: Reading)
    requires IsRelease(f) && f.prerelease != []
    ensures var g := f.(prerelease := []);
      && ParseReleaseVersion(Render(f)) == Some(f) && ParseReleaseVersion(Render(g)) == Some(g)
      && Order(ToVersion(f, Value), ToVersion(g, Value)) < 0 && Order(ToVersion(g, Value), ToVersion(f, Value)) > 0
      && ParseProductVersion(Render(f), number) == Some(ProductVersion(Render(f), ToVersion(f, number)))
      && ParseProductVersion(Render(g), number) == Some(ProductVersion(Render(g), ToVersion(g, number)))
      && Order(ToVersion(f, number), ToVersion(g, number)) < 0 && Order(ToVersion(g, number), ToVersion(f, number)) > 0
  {
    var g := f.(prerelease := []);
    RenderedIsParsed(f);
    RenderedIsParsed(g);
    FieldsLessIff(f, g, Value);
    FieldsLessIff(f, g, number);
    OrderFlip(ToVersion(f, Value), ToVersion(g, Value));
    OrderFlip(ToVersion(f, number), ToVersion(g, number));
    hide Order, Value, ParseFields, Render, PreLessAt;
  }

  // The example of section 11: 1.0.0-alpha, and so on up to 1.0.0.

  const CHAIN: seq<string> := ["1.0.0-alpha", "1.0.0-alpha.1", "1.0.0-alpha.beta", "1.0.0-beta", "1.0.0-beta.2",
                               "1.0.0-beta.11", "1.0.0-rc.1", "1.0.0"]

  const CHAIN_IDS: seq<seq<string>> :=
    [["alpha"], ["alpha", "1"], ["alpha", "beta"], ["beta"], ["beta", "2"], ["beta", "11"], ["rc", "1"], []]

  function One(ids: seq<string>): Fields {
    Fields("1", "0", "0", ids, [])
  }

  lemma RenderOne(ids: seq<string>)
    ensures ids == [] ==> Render(One(ids)) == "1.0.0"
    ensures |ids| == 1 ==> Render(One(ids)) == "1.0.0-" + ids[0]
    ensures |ids| == 2 ==> Render(One(ids)) == "1.0.0-" + ids[0] + "." + ids[1]
  {
    var parts := ["1", "0", "0"];
    assert Join(parts[1..]) == "0" + "." + Join(parts[1..][1..]) && parts[1..][1..] == ["0"];
    assert Join(parts) == "1.0.0";
    if |ids| == 1 {
      assert "1.0.0" + (['-'] + ids[0]) == "1.0.0-" + ids[0];
    } else if |ids| == 2 {
      assert ids[1..] == [ids[1]];
      assert Join(ids) == ids[0] + "." + ids[1];
      assert "1.0.0" + (['-'] + (ids[0] + "." + ids[1])) == "1.0.0-" + ids[0] + "." + ids[1];
    }
  }

  lemma ChainRendered(i: nat)
    requires i < |CHAIN|
    ensures CHAIN[i] == Render(One(CHAIN_IDS[i]))
  {
    hide Render;
    RenderOne(CHAIN_IDS[i]);
    assert "1.0.0-" + "alpha" == "1.0.0-alpha" && "1.0.0-" + "beta" == "1.0.0-beta";
    assert "1.0.0-" + "alpha" + "." + "1" == "1.0.0-alpha.1";
    assert "1.0.0-" + "alpha" + "." + "beta" == "1.0.0-alpha.beta";
    assert "1.0.0-" + "beta" + "." + "2" == "1.0.0-beta.2";
    assert "1.0.0-" + "beta" + "." + "11" == "1.0.0-beta.11";
    assert "1.0.0-" + "rc" + "." + "1" == "1.0.0-rc.1";
  }

  lemma ChainIsRelease(i: nat)
    requires i < |CHAIN|
    ensures IsRelease(One(CHAIN_IDS[i]))
  {
  }

  lemma SmallValues()
    ensures Value("1") == 1 && Value("2") == 2 && Value("11") == 11
  {
    ValueLast([], '1');
    ValueLast([], '2');
    ValueLast("1", '1');
    EmptyValue();
    assert [] + ['1'] == "1" && [] + ['2'] == "2" && "1" + ['1'] == "11";
  }

  lemma ChainTexts()
    ensures TextBefore("alpha", "beta") && TextBefore("beta", "rc")
    ensures !AllDigits("alpha") && !AllDigits("beta") && !AllDigits("rc")
    ensures AllDigits("1") && AllDigits("2") && AllDigits("11")
  {
    assert !Digit("alpha"[0]) && !Digit("beta"[0]) && !Digit("rc"[0]);
    assert TextBeforeAt("alpha", "beta", 0) && TextBeforeAt("beta", "rc", 0);
  }

  /** Where each of the chain's versions comes before the next. */
  lemma ChainLess(i: nat, number: Reading)
    requires i + 1 < |CHAIN| && IsNumber(number)
    ensures FieldsLess(One(CHAIN_IDS[i]), One(CHAIN_IDS[i + 1]), number)
  {
    SmallValues();
    ChainTexts();
    hide Value, TextBefore, AllDigits;
    var p, q := CHAIN_IDS[i], CHAIN_IDS[i + 1];
    if i == 0 || i == 3 {
      assert PreLessAt(p, q, 1, number);
    } else if i == 1 {
      assert PreLessAt(p, q, 1, number);
    } else if i == 4 {
      assert number("2") == 2 && number("11") == 11;
      assert PreLessAt(p, q, 1, number);
    } else if i == 2 || i == 5 {
      assert PreLessAt(p, q, 0, number);
    }
  }

  /** Both comparators order the example as the standard does. */
  lemma ChainInOrder(i: nat, number: Reading)
    requires i + 1 < |CHAIN| && IsNumber(number)
    ensures ParseReleaseVersion(CHAIN[i]).Some? && ParseReleaseVersion(CHAIN[i + 1]).Some?
    ensures Order(ToVersion(ParseReleaseVersion(CHAIN[i]).value, Value), ToVersion(ParseReleaseVersion(CHAIN[i + 1]).value, Value)) < 0
    ensures ParseProductVersion(CHAIN[i], number).Some? && ParseProductVersion(CHAIN[i + 1], number).Some?
    ensures Order(ParseProductVersion(CHAIN[i], number).value.version, ParseProductVersion(CHAIN[i + 1], number).value.version) < 0
  {
    CappedReading();
    hide Order, Value, IsNumber, FieldsLess, ParseFields, Render, Matches, PlainNumbers;
    forall j | j == i || j == i + 1 ensures ParseFields(CHAIN[j]) == Some(One(CHAIN_IDS[j])) && IsRelease(One(CHAIN_IDS[j])) {
      ChainRendered(j);
      ChainIsRelease(j);
      RenderedIsParsed(One(CHAIN_IDS[j]));
    }
    ChainLess(i, number);
    ChainLess(i, Value);
    FieldsLessIff(One(CHAIN_IDS[i]), One(CHAIN_IDS[i + 1]), number);
    FieldsLessIff(One(CHAIN_IDS[i]), One(CHAIN_IDS[i + 1]), Value);
  }
}
