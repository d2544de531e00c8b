/** The text of a version: the two patterns the repository accepts, and the fields they capture. */
module VersionText {
  import opened Common

  predicate Digit(c: char) {
    '0' <= c <= '9'
  }

  predicate IdentifierChar(c: char) {
    Digit(c) || 'A' <= c <= 'Z' || 'a' <= c <= 'z' || c == '-'
  }

  predicate AllDigits(s: string) {
    s != [] && forall i :: 0 <= i < |s| ==> Digit(s[i])
  }

  predicate LeadingZero(s: string) {
    |s| > 1 && s[0] == '0'
  }

  /** A core field: digits without a leading zero. */
  predicate CoreField(s: string) {
    AllDigits(s) && !LeadingZero(s)
  }

  predicate Identifier(s: string) {
    s != [] && forall i :: 0 <= i < |s| ==> IdentifierChar(s[i])
  }

  predicate Identifiers(ids: seq<string>) {
    forall i :: 0 <= i < |ids| ==> Identifier(ids[i])
  }

  // What the pattern captures; no prerelease or build part is the empty list.
  datatype Fields = Fields(major: string, minor: string, patch: string, prerelease: seq<string>, build: seq<string>)

  predicate Matches(f: Fields) {
    && CoreField(f.major) && CoreField(f.minor) && CoreField(f.patch)
    && Identifiers(f.prerelease) && Identifiers(f.build)
  }

  function Join(parts: seq<string>): string
    requires parts != []
  {
    if |parts| == 1 then parts[0] else parts[0] + "." + Join(parts[1..])
  }

  function Suffix(c: char, ids: seq<string>): string {
    if ids == [] then [] else [c] + Join(ids)
  }

  function Core(f: Fields): string {
    Join([f.major, f.minor, f.patch])
  }

  function Render(f: Fields): string {
    Core(f) + Suffix('-', f.prerelease) + Suffix('+', f.build)
  }

  /** The text before and after the first `c`; no `c` gives None. */
  function SplitFirst(s: string, c: char): (r: Option<(string, string)>)
    ensures r.None? <==> c !in s
    ensures r.Some? ==> s == r.value.0 + [c] + r.value.1 && c !in r.value.0
  {
    if s == [] then None
    else if s[0] == c then
      assert s == [] + [c] + s[1..];
      Some(([], s[1..]))
    else
      assert s == [s[0]] + s[1..];
      match SplitFirst(s[1..], c)
      case None => None
      case Some((a, b)) => Some(([s[0]] + a, b))
  }

  lemma {:induction false} SplitFirstOf(a: string, c: char, b: string)
    requires c !in a
    ensures SplitFirst(a + [c] + b, c) == Some((a, b))
  {
    var s := a + [c] + b;
    if a == [] {
      assert s[0] == c && s[1..] == b;
    } else {
      assert s[0] == a[0] && s[1..] == a[1..] + [c] + b;
      SplitFirstOf(a[1..], c, b);
      assert a == [a[0]] + a[1..];
    }
  }

  /** The pieces between the dots. */
  function SplitDots(s: string): (r: seq<string>)
    ensures r != []
    ensures Join(r) == s
    ensures forall i :: 0 <= i < |r| ==> '.' !in r[i]
    decreases |s|
  {
    match SplitFirst(s, '.')
    case None => [s]
    case Some((a, b)) =>
      var rest := SplitDots(b);
      assert ([a] + rest)[1..] == rest;
      [a] + rest
  }

  lemma {:induction false} SplitOfJoin(parts: seq<string>)
    requires parts != [] && forall i :: 0 <= i < |parts| ==> '.' !in parts[i]
    ensures SplitDots(Join(parts)) == parts
  {
    if |parts| == 1 {
      assert SplitFirst(parts[0], '.') == None;
      assert parts == [parts[0]];
    } else {
      SplitOfJoin(parts[1..]);
      SplitFirstOf(parts[0], '.', Join(parts[1..]));
      assert parts == [parts[0]] + parts[1..];
    }
  }

  function SplitOptional(s: string, c: char): (string, Option<string>) {
    match SplitFirst(s, c)
    case None => (s, None)
    case Some((a, b)) => (a, Some(b))
  }

  function DotList(o: Option<string>): seq<string> {
    if o.None? then [] else SplitDots(o.value)
  }

  /** Reads a version off its text: the core up to the first dash, and what follows the first plus. */
  function ParseFields(s: string): Option<Fields> {
    var (head, build) := SplitOptional(s, '+');
    var (core, prerelease) := SplitOptional(head, '-');
    var numbers := SplitDots(core);
    if |numbers| != 3 then None
    else
      var f := Fields(numbers[0], numbers[1], numbers[2], DotList(prerelease), DotList(build));
      if Matches(f) then Some(f) else None
  }

  lemma {:induction false} JoinChars(parts: seq<string>, c: char)
    requires parts != [] && c != '.' && forall i :: 0 <= i < |parts| ==> c !in parts[i]
    ensures c !in Join(parts)
  {
    if |parts| > 1 {
      JoinChars(parts[1..], c);
    }
  }

  lemma NoSuchChar(ids: seq<string>, c: char)
    requires Identifiers(ids) && !IdentifierChar(c)
    ensures forall i :: 0 <= i < |ids| ==> c !in ids[i]
  {
  }

  lemma CoreChars(f: Fields, c: char)
    requires Matches(f) && !Digit(c) && c != '.'
    ensures c !in Core(f)
  {
    JoinChars([f.major, f.minor, f.patch], c);
  }

  /** An optional part is split off where it starts, and taken apart at its dots. */
  lemma SplitOptionalOf(head: string, c: char, ids: seq<string>)
    requires c !in head && Identifiers(ids)
    ensures SplitOptional(head + Suffix(c, ids), c).0 == head
    ensures DotList(SplitOptional(head + Suffix(c, ids), c).1) == ids
  {
    if ids == [] {
      assert head + Suffix(c, ids) == head;
    } else {
      assert head + Suffix(c, ids) == head + [c] + Join(ids);
      SplitFirstOf(head, c, Join(ids));
      NoSuchChar(ids, '.');
      SplitOfJoin(ids);
    }
  }

  lemma SplitOptionalJoins(s: string, c: char)
    ensures var (head, rest) := SplitOptional(s, c); s == head + Suffix(c, DotList(rest))
  {
  }

  /** The text is what rendering the captured fields gives. */
  lemma ParsedIsRendered(s: string)
    requires ParseFields(s).Some?
    ensures s == Render(ParseFields(s).value) && Matches(ParseFields(s).value)
  {
    hide Matches, Suffix;
    var f := ParseFields(s).value;
    var (head, build) := SplitOptional(s, '+');
    var (core, prerelease) := SplitOptional(head, '-');
    SplitOptionalJoins(s, '+');
    SplitOptionalJoins(head, '-');
    assert SplitDots(core) == [f.major, f.minor, f.patch];
  }

  /** Fields of the right shape are read back from their text. */
  lemma RenderedIsParsed(f: Fields)
    requires Matches(f)
    ensures ParseFields(Render(f)) == Some(f)
  {
    hide Suffix;
    CoreChars(f, '+');
    CoreChars(f, '-');
    var head := Core(f) + Suffix('-', f.prerelease);
    SuffixChars(f.prerelease, '-', '+');
    SplitOptionalOf(head, '+', f.build);
    SplitOptionalOf(Core(f), '-', f.prerelease);
    SplitOfJoin([f.major, f.minor, f.patch]);
  }

  lemma SuffixChars(ids: seq<string>, c: char, d: char)
    requires Identifiers(ids) && c != d && !IdentifierChar(d) && d != '.'
    ensures d !in Suffix(c, ids)
  {
    if ids != [] {
      NoSuchChar(ids, d);
      JoinChars(ids, d);
    }
  }

  /** Reading a text gives exactly the fields of the right shape that render to it. */
  lemma ParseIff(s: string, f: Fields)
    ensures ParseFields(s) == Some(f) <==> s == Render(f) && Matches(f)
  {
    hide Matches, Render, ParseFields;
    if ParseFields(s) == Some(f) {
      ParsedIsRendered(s);
    } else if s == Render(f) && Matches(f) {
      RenderedIsParsed(f);
    }
  }

  // The pattern, character by character.

  const DIGITS := "0123456789"
  const UPPER := "ABCDEFGHIJKLMNOPQRSTUVWXYZ"
  const LOWER := "abcdefghijklmnopqrstuvwxyz"

  predicate WordChar(c: char) {
    c in DIGITS || c in UPPER || c in LOWER || c == '-'
  }

  /** A zero alone, or digits that begin with another one. */
  predicate Numeral(s: string) {
    s == "0" || (s != "" && s[0] in "123456789" && forall i :: 0 <= i < |s| ==> s[i] in DIGITS)
  }

  predicate Dotted(ids: seq<string>) {
    forall i :: 0 <= i < |ids| ==> ids[i] != "" && forall j :: 0 <= j < |ids[i]| ==> WordChar(ids[i][j])
  }

  lemma DigitIff(c: char)
    ensures Digit(c) <==> c in DIGITS
    ensures c in "123456789" <==> Digit(c) && c != '0'
  {
  }

  lemma UpperIff(c: char)
    ensures 'A' <= c <= 'Z' <==> c in UPPER
  {
    assert 'A' <= c <= 'Z' ==> UPPER[c as int - 'A' as int] == c;
  }

  lemma LowerIff(c: char)
    ensures 'a' <= c <= 'z' <==> c in LOWER
  {
    assert 'a' <= c <= 'z' ==> LOWER[c as int - 'a' as int] == c;
  }

  lemma WordCharIff(c: char)
    ensures IdentifierChar(c) <==> WordChar(c)
  {
    DigitIff(c);
    UpperIff(c);
    LowerIff(c);
  }

  lemma NumeralIff(s: string)
    ensures CoreField(s) <==> Numeral(s)
  {
    forall i | 0 <= i < |s| ensures Digit(s[i]) <==> s[i] in DIGITS {
      DigitIff(s[i]);
    }
    if s != [] {
      DigitIff(s[0]);
    }
    hide Digit;
    assert s != "" && s[0] == '0' && |s| == 1 ==> s == "0";
  }

  lemma DottedIff(ids: seq<string>)
    ensures Identifiers(ids) <==> Dotted(ids)
  {
    hide IdentifierChar, WordChar;
    forall i, j | 0 <= i < |ids| && 0 <= j < |ids[i]| ensures IdentifierChar(ids[i][j]) <==> WordChar(ids[i][j]) {
      WordCharIff(ids[i][j]);
    }
  }

  /** A text is read exactly when it is three numerals, and dotted identifiers after a dash and after a plus. */
  lemma ReadableIff(s: string, f: Fields)
    ensures ParseFields(s) == Some(f) <==>
      && s == f.major + "." + f.minor + "." + f.patch
              + (if f.prerelease == [] then "" else "-" + Join(f.prerelease)) + (if f.build == [] then "" else "+" + Join(f.build))
      && Numeral(f.major) && Numeral(f.minor) && Numeral(f.patch) && Dotted(f.prerelease) && Dotted(f.build)
  {
    ParseIff(s, f);
    NumeralIff(f.major);
    NumeralIff(f.minor);
    NumeralIff(f.patch);
    DottedIff(f.prerelease);
    DottedIff(f.build);
    var parts := [f.major, f.minor, f.patch];
    assert Join(parts[1..]) == f.minor + "." + Join(parts[1..][1..]) && parts[1..][1..] == [f.patch];
    assert Core(f) == f.major + "." + f.minor + "." + f.patch;
    hide ParseFields, CoreField, Identifiers, Numeral, Dotted, Core;
  }
}
