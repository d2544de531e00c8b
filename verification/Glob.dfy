/** The `*`-glob compiler: what the regular expression it writes matches. */
module Glob {
  import opened Common

  // The compiler.

  predicate Meta(c: char) {
    || c == '.' || c == '*' || c == '+' || c == '?' || c == '^' || c == '$' || c == '{' || c == '}'
    || c == '(' || c == ')' || c == '|' || c == '[' || c == ']' || c == '\\'
  }

  function EscapeChar(c: char): string {
    if Meta(c) then ['\\', c] else [c]
  }

  /** Puts a backslash before every metacharacter. */
  function EscapeRegExp(s: string): string {
    if s == [] then [] else EscapeChar(s[0]) + EscapeRegExp(s[1..])
  }

  /** The pieces of the pattern between its stars. */
  function SplitStars(pattern: string): (r: seq<string>)
    ensures r != [] && forall i :: 0 <= i < |r| ==> '*' !in r[i]
  {
    if pattern == [] then [""]
    else
      var rest := SplitStars(pattern[1..]);
      if pattern[0] == '*' then [""] + rest else [[pattern[0]] + rest[0]] + rest[1..]
  }

  function JoinEscaped(pieces: seq<string>): string
    requires pieces != []
  {
    if |pieces| == 1 then EscapeRegExp(pieces[0]) else EscapeRegExp(pieces[0]) + ".*" + JoinEscaped(pieces[1..])
  }

  /** The text of the compiled regular expression. */
  function GlobSource(pattern: string): string {
    "^" + JoinEscaped(SplitStars(pattern)) + "$"
  }

  // The fragment of regular expressions it writes: how the text reads, and what it matches.

  datatype Item = Literal(c: char) | AnyRun

  /** The syntax characters of the expression language, which stand for themselves only behind a backslash. */
  predicate Syntax(c: char) {
    c in "^$\\.*+?()[]{}|"
  }

  /** Reads a body: an escaped syntax character, an ordinary character, or `.*`; anything else is outside the fragment. */
  function ReadBody(s: string): Option<seq<Item>>
    decreases |s|
  {
    if s == [] then Some([])
    else if s[0] == '\\' then
      if |s| < 2 || !Syntax(s[1]) then None
      else match ReadBody(s[2..]) case None => None case Some(r) => Some([Literal(s[1])] + r)
    else if s[0] == '.' then
      if |s| < 2 || s[1] != '*' then None
      else match ReadBody(s[2..]) case None => None case Some(r) => Some([AnyRun] + r)
    else if Syntax(s[0]) then None
    else match ReadBody(s[1..]) case None => None case Some(r) => Some([Literal(s[0])] + r)
  }

  /** Reads an expression anchored at both ends. */
  function ReadAnchored(s: string): Option<seq<Item>> {
    if |s| < 2 || s[0] != '^' || s[|s| - 1] != '$' then None else ReadBody(s[1..|s| - 1])
  }

  /** The characters that `.` does not match. */
  predicate LineTerminator(c: char) {
    c in "\n\r\U{2028}\U{2029}"
  }

  predicate OneLine(s: string) {
    forall i :: 0 <= i < |s| ==> !LineTerminator(s[i])
  }

  /** The items match the whole of `s`. */
  ghost predicate MatchItems(items: seq<Item>, s: string) {
    if items == [] then s == []
    else match items[0]
      case Literal(c) => s != [] && s[0] == c && MatchItems(items[1..], s[1..])
      case AnyRun => exists k :: 0 <= k <= |s| && OneLine(s[..k]) && MatchItems(items[1..], s[k..])
  }

  /** What `globToRegExp(pattern).test(s)` answers. */
  ghost predicate RegExpTest(pattern: string, s: string) {
    var items := ReadAnchored(GlobSource(pattern));
    items.Some? && MatchItems(items.value, s)
  }

  // What the glob means, by itself.

  /** `s` is the pieces in order, with a gap of `gap` shape between each two. */
  ghost predicate Pieced(pieces: seq<string>, s: string, gap: string -> bool)
    requires pieces != []
    decreases |pieces|, 0
  {
    if |pieces| == 1 then s == pieces[0]
    else pieces[0] <= s && GapThenPieced(pieces[1..], s[|pieces[0]|..], gap)
  }

  ghost predicate GapThenPieced(pieces: seq<string>, s: string, gap: string -> bool)
    requires pieces != []
    decreases |pieces|, 1
  {
    exists k :: 0 <= k <= |s| && gap(s[..k]) && Pieced(pieces, s[k..], gap)
  }

  ghost predicate GlobMatches(pattern: string, s: string) {
    Pieced(SplitStars(pattern), s, OneLine)
  }

  // Reading back what the compiler wrote.

  function Literals(s: string): seq<Item> {
    seq(|s|, i requires 0 <= i < |s| => Literal(s[i]))
  }

  function ItemsOf(pieces: seq<string>): seq<Item>
    requires pieces != []
  {
    if |pieces| == 1 then Literals(pieces[0]) else Literals(pieces[0]) + [AnyRun] + ItemsOf(pieces[1..])
  }

  /** The compiler escapes exactly the syntax characters. */
  lemma EscapesSyntax(c: char)
    ensures Meta(c) <==> Syntax(c)
  {
  }

  lemma ReadChar(c: char, tail: string)
    requires ReadBody(tail).Some?
    ensures ReadBody(EscapeChar(c) + tail) == Some([Literal(c)] + ReadBody(tail).value)
  {
    EscapesSyntax(c);
    var all := EscapeChar(c) + tail;
    if Meta(c) {
      assert all[0] == '\\' && all[1] == c && all[2..] == tail;
    } else {
      assert all[0] == c && all[1..] == tail;
    }
  }

  lemma {:induction false} ReadEscaped(s: string, rest: string)
    requires ReadBody(rest).Some?
    ensures ReadBody(EscapeRegExp(s) + rest) == Some(Literals(s) + ReadBody(rest).value)
  {
    hide ReadBody, Meta;
    if s == [] {
      assert EscapeRegExp(s) + rest == rest;
      assert Literals(s) + ReadBody(rest).value == ReadBody(rest).value;
    } else {
      ReadEscaped(s[1..], rest);
      ReadChar(s[0], EscapeRegExp(s[1..]) + rest);
      assert EscapeRegExp(s) + rest == EscapeChar(s[0]) + (EscapeRegExp(s[1..]) + rest);
      var items := ReadBody(rest).value;
      assert Literals(s) + items == [Literal(s[0])] + (Literals(s[1..]) + items);
    }
  }

  lemma EmptyBody()
    ensures ReadBody("") == Some([])
  {
  }

  lemma ReadStar(tail: string)
    requires ReadBody(tail).Some?
    ensures ReadBody(".*" + tail) == Some([AnyRun] + ReadBody(tail).value)
  {
    var all := ".*" + tail;
    assert all[0] == '.' && all[1] == '*' && all[2..] == tail;
  }

  lemma {:induction false} ReadJoined(pieces: seq<string>)
    requires pieces != []
    ensures ReadBody(JoinEscaped(pieces)) == Some(ItemsOf(pieces))
  {
    EmptyBody();
    hide ReadBody;
    if |pieces| == 1 {
      ReadEscaped(pieces[0], "");
      assert JoinEscaped(pieces) == EscapeRegExp(pieces[0]) + "";
      assert Literals(pieces[0]) + [] == Literals(pieces[0]);
    } else {
      ReadJoined(pieces[1..]);
      var rest := ".*" + JoinEscaped(pieces[1..]);
      ReadStar(JoinEscaped(pieces[1..]));
      ReadEscaped(pieces[0], rest);
      assert JoinEscaped(pieces) == EscapeRegExp(pieces[0]) + rest;
      assert ItemsOf(pieces) == Literals(pieces[0]) + ([AnyRun] + ItemsOf(pieces[1..]));
    }
  }

  lemma SourceReadsBack(pattern: string)
    ensures ReadAnchored(GlobSource(pattern)) == Some(ItemsOf(SplitStars(pattern)))
  {
    var source, body := GlobSource(pattern), JoinEscaped(SplitStars(pattern));
    assert source[1..|source| - 1] == body;
    ReadJoined(SplitStars(pattern));
  }

  // The language of what was read.

  lemma {:induction false} MatchLiterals(p: string, items: seq<Item>, s: string)
    ensures MatchItems(Literals(p) + items, s) <==> p <= s && MatchItems(items, s[|p|..])
  {
    if p == [] {
      assert Literals(p) + items == items;
    } else {
      var all := Literals(p) + items;
      assert all[0] == Literal(p[0]) && all[1..] == Literals(p[1..]) + items;
      if s != [] && s[0] == p[0] {
        MatchLiterals(p[1..], items, s[1..]);
        assert p <= s <==> p[1..] <= s[1..];
        if p <= s {
          assert s[1..][|p[1..]|..] == s[|p|..];
        }
      }
    }
  }

  lemma {:induction false} MatchPieces(pieces: seq<string>, s: string)
    requires pieces != []
    ensures MatchItems(ItemsOf(pieces), s) <==> Pieced(pieces, s, OneLine)
    decreases |pieces|, 0
  {
    var p := pieces[0];
    if |pieces| == 1 {
      MatchLiterals(p, [], s);
      assert Literals(p) + [] == ItemsOf(pieces);
    } else {
      assert ItemsOf(pieces) == Literals(p) + ([AnyRun] + ItemsOf(pieces[1..]));
      MatchLiterals(p, [AnyRun] + ItemsOf(pieces[1..]), s);
      if p <= s {
        MatchGap(pieces[1..], s[|p|..]);
      }
    }
  }

  lemma {:induction false} MatchGap(pieces: seq<string>, s: string)
    requires pieces != []
    ensures MatchItems([AnyRun] + ItemsOf(pieces), s) <==> GapThenPieced(pieces, s, OneLine)
    decreases |pieces|, 1
  {
    var items := ItemsOf(pieces);
    assert ([AnyRun] + items)[1..] == items;
    forall k | 0 <= k <= |s| ensures MatchItems(items, s[k..]) <==> Pieced(pieces, s[k..], OneLine) {
      MatchPieces(pieces, s[k..]);
    }
    hide Pieced, ItemsOf, OneLine;
  }

  /** The compiled expression matches exactly what the glob means. */
  lemma CompilerPreservesMeaning(pattern: string, s: string)
    ensures RegExpTest(pattern, s) <==> GlobMatches(pattern, s)
  {
    SourceReadsBack(pattern);
    MatchPieces(SplitStars(pattern), s);
  }

  /** Splitting at the stars loses nothing: the pieces joined by stars are the pattern again. */
  lemma {:induction false} SplitStarsJoins(pattern: string)
    ensures JoinStars(SplitStars(pattern)) == pattern
  {
    if pattern != [] {
      SplitStarsJoins(pattern[1..]);
      assert pattern == [pattern[0]] + pattern[1..];
      var rest := SplitStars(pattern[1..]);
      if pattern[0] == '*' {
        assert ([""] + rest)[1..] == rest;
      } else {
        assert ([[pattern[0]] + rest[0]] + rest[1..])[1..] == rest[1..];
      }
    }
  }

  function JoinStars(pieces: seq<string>): string
    requires pieces != []
  {
    if |pieces| == 1 then pieces[0] else pieces[0] + "*" + JoinStars(pieces[1..])
  }

  // The comment on the compiler promises that a star matches any run of characters.

  predicate AnyGap(s: string) {
    true
  }

  lemma {:induction false} GapsInOneLine(pieces: seq<string>, s: string)
    requires pieces != [] && OneLine(s)
    ensures Pieced(pieces, s, OneLine) <==> Pieced(pieces, s, AnyGap)
  {
    if |pieces| > 1 && pieces[0] <= s {
      var t := s[|pieces[0]|..];
      forall k | 0 <= k <= |t| ensures OneLine(t[..k]) && (Pieced(pieces[1..], t[k..], OneLine) <==> Pieced(pieces[1..], t[k..], AnyGap)) {
        GapsInOneLine(pieces[1..], t[k..]);
      }
      hide Pieced, OneLine;
    }
  }

  /** A star alone is one gap. */
  lemma StarIsGap(s: string, gap: string -> bool)
    ensures Pieced(["", ""], s, gap) <==> GapThenPieced([""], s, gap)
  {
    assert ["", ""][1..] == [""] && s[|""|..] == s;
  }

  lemma LastGap(s: string, gap: string -> bool)
    ensures GapThenPieced([""], s, gap) <==> gap(s)
  {
    assert s[..|s|] == s && s[|s|..] == [];
    assert forall k :: 0 <= k <= |s| ==> (Pieced([""], s[k..], gap) <==> k == |s|);
  }

  lemma SplitStar()
    ensures SplitStars("*") == ["", ""]
  {
    assert SplitStars("*"[1..]) == [""];
  }

  lemma StarAlone(s: string)
    ensures GlobMatches("*", s) <==> OneLine(s)
    ensures Pieced(SplitStars("*"), s, AnyGap)
  {
    hide OneLine, Pieced, GapThenPieced, SplitStars;
    SplitStar();
    StarIsGap(s, OneLine);
    LastGap(s, OneLine);
    StarIsGap(s, AnyGap);
    LastGap(s, AnyGap);
  }

  /** A star means any run of characters, for every pattern, exactly on subjects without line terminators. */
  lemma StarsMeanAnythingIff(s: string)
    ensures (forall pattern :: RegExpTest(pattern, s) <==> Pieced(SplitStars(pattern), s, AnyGap)) <==> OneLine(s)
  {
    hide RegExpTest, Pieced, SplitStars, OneLine;
    StarAlone(s);
    CompilerPreservesMeaning("*", s);
    forall pattern ensures RegExpTest(pattern, s) <==> GlobMatches(pattern, s) {
      CompilerPreservesMeaning(pattern, s);
    }
    if OneLine(s) {
      forall pattern ensures RegExpTest(pattern, s) <==> Pieced(SplitStars(pattern), s, AnyGap) {
        GapsInOneLine(SplitStars(pattern), s);
      }
    }
  }
}
