/**
 What LIKE means: section 8.5 of ISO/IEC 9075-2, over strings of characters and with a
 single escape character. A pattern is read from the left; the escape character makes the
 character after it literal, and must not end the pattern.
 */
module LikeSpec {

  /** A pattern, unit by unit. Dangling is an escape character with nothing after it. */
  datatype Units =
    | End
    | Dangling
    | Plain(c: char, rest: Units)     // a character that is not the escape character
    | Escaped(c: char, rest: Units)   // the escape character and the character after it

  function Parse(p: string, esc: char): Units {
    if p == [] then End
    else if p[0] != esc then Plain(p[0], Parse(p[1..], esc))
    else if |p| == 1 then Dangling
    else Escaped(p[1], Parse(p[2..], esc))
  }

  predicate IsDangling(u: Units) {
    match u
    case End => false
    case Dangling => true
    case Plain(_, r) => IsDangling(r)
    case Escaped(_, r) => IsDangling(r)
  }

  /** The pattern ends in an escape character that escapes nothing. */
  predicate EndsInEscape(p: string, esc: char) { IsDangling(Parse(p, esc)) }

  datatype Token = AnyString | AnyChar | Literal(c: char)

  /** An unescaped % or _ is a wildcard; every other character stands for itself. */
  function PlainToken(c: char): Token {
    if c == '%' then AnyString else if c == '_' then AnyChar else Literal(c)
  }

  function Tokens(u: Units): seq<Token> {
    match u
    case End => []
    case Dangling => []
    case Plain(c, r) => [PlainToken(c)] + Tokens(r)
    case Escaped(c, r) => [Literal(c)] + Tokens(r)
  }

  predicate Matches(ts: seq<Token>, s: string)
    decreases |ts|, |s|
  {
    if ts == [] then s == []
    else match ts[0]
      case AnyString => Matches(ts[1..], s) || (s != [] && Matches(ts, s[1..]))
      case AnyChar => s != [] && Matches(ts[1..], s[1..])
      case Literal(c) => s != [] && s[0] == c && Matches(ts[1..], s[1..])
  }

  /** s LIKE p ESCAPE esc, for a pattern that does not end in an escape. */
  predicate Like(p: string, esc: char, s: string) { Matches(Tokens(Parse(p, esc)), s) }

  // ---------------------------------------------------------------------------
  // The standard's definition
  // ---------------------------------------------------------------------------

  predicate Fits(t: Token, x: string) {
    match t
    case AnyString => true
    case AnyChar => |x| == 1
    case Literal(c) => x == [c]
  }

  function Flatten(xs: seq<string>): string {
    if xs == [] then [] else xs[0] + Flatten(xs[1..])
  }

  /** s is cut into one piece for each token, and each piece is what its token stands for. */
  ghost predicate IsPartition(ts: seq<Token>, s: string, xs: seq<string>) {
    |xs| == |ts| && Flatten(xs) == s && forall i | 0 <= i < |ts| :: Fits(ts[i], xs[i])
  }

  lemma {:induction false} Cut(ts: seq<Token>, s: string) returns (xs: seq<string>)
    requires Matches(ts, s)
    ensures IsPartition(ts, s, xs)
    decreases |ts|, |s|
  {
    if ts == [] {
      xs := [];
    } else if ts[0] == AnyString && !Matches(ts[1..], s) {
      var ys := Cut(ts, s[1..]);
      xs := [[s[0]] + ys[0]] + ys[1..];
      assert Flatten(ys) == ys[0] + Flatten(ys[1..]);
      assert xs[1..] == ys[1..];
      assert [s[0]] + s[1..] == s;
    } else {
      var n := if ts[0] == AnyString then 0 else 1;
      var ys := Cut(ts[1..], s[n..]);
      xs := [s[..n]] + ys;
      assert xs[1..] == ys;
    }
  }

  lemma {:induction false} Join(ts: seq<Token>, s: string, xs: seq<string>)
    requires IsPartition(ts, s, xs)
    ensures Matches(ts, s)
    decreases |ts|, |s|
  {
    if ts != [] {
      var x := xs[0];
      assert s == x + Flatten(xs[1..]);
      if ts[0] == AnyString && x != [] {
        var ys := [x[1..]] + xs[1..];
        assert ys[1..] == xs[1..];
        assert s[1..] == x[1..] + Flatten(xs[1..]);
        Join(ts, s[1..], ys);
      } else {
        assert s[|x|..] == Flatten(xs[1..]);
        Join(ts[1..], s[|x|..], xs[1..]);
      }
    }
  }

  /** The matcher decides the definition of section 8.5: some partition of s fits the pattern. */
  lemma {:induction false} MatchesIsPartition(ts: seq<Token>, s: string)
    ensures Matches(ts, s) <==> exists xs :: IsPartition(ts, s, xs)
  {
    if Matches(ts, s) { var xs := Cut(ts, s); }
    if xs :| IsPartition(ts, s, xs) { Join(ts, s, xs); }
  }

  // ---------------------------------------------------------------------------
  // Matching by shapes
  // ---------------------------------------------------------------------------

  function Literals(w: string): seq<Token> {
    if w == [] then [] else [Literal(w[0])] + Literals(w[1..])
  }

  lemma {:induction false} MatchLiterals(w: string, ts: seq<Token>, s: string)
    ensures Matches(Literals(w) + ts, s) <==> w <= s && Matches(ts, s[|w|..])
  {
    if w == [] {
      assert Literals(w) + ts == ts;
    } else {
      var all := Literals(w) + ts;
      assert all[0] == Literal(w[0]) && all[1..] == Literals(w[1..]) + ts;
      if s != [] && s[0] == w[0] {
        MatchLiterals(w[1..], ts, s[1..]);
        assert w <= s <==> w[1..] <= s[1..];
        if w <= s { assert s[1..][|w| - 1..] == s[|w|..]; }
      }
    }
  }

  /** The % wildcard matches any number of characters. */
  lemma {:induction false} MatchAnyString(ts: seq<Token>, s: string)
    ensures Matches([AnyString] + ts, s) <==> exists k | 0 <= k <= |s| :: Matches(ts, s[k..])
  {
    var all := [AnyString] + ts;
    assert all[1..] == ts;
    assert s[0..] == s;
    if s != [] {
      MatchAnyString(ts, s[1..]);
      assert forall k | 0 <= k <= |s| - 1 :: s[1..][k..] == s[k + 1..];
      if Matches(all, s[1..]) {
        var k :| 0 <= k <= |s| - 1 && Matches(ts, s[1..][k..]);
        assert Matches(ts, s[k + 1..]);
      }
      if k :| 0 < k <= |s| && Matches(ts, s[k..]) {
        assert s[1..][k - 1..] == s[k..];
      }
    }
  }

  lemma {:induction false} MatchNothing(s: string)
    ensures Matches([], s) <==> s == []
  {
  }

  lemma {:induction false} MatchAnyChar(ts: seq<Token>, s: string)
    ensures Matches([AnyChar] + ts, s) <==> s != [] && Matches(ts, s[1..])
  {
    assert ([AnyChar] + ts)[1..] == ts;
  }

  lemma {:induction false} MatchAll(s: string)
    ensures Matches([AnyString], s)
  {
    if s != [] { MatchAll(s[1..]); }
  }

  predicate HasSuffix(s: string, w: string) { |w| <= |s| && s[|s| - |w|..] == w }

  predicate Contains(s: string, w: string) { exists k | 0 <= k <= |s| :: w <= s[k..] }

  lemma {:induction false} MatchExactly(w: string, s: string)
    ensures Matches(Literals(w), s) <==> s == w
  {
    assert Literals(w) + [] == Literals(w);
    MatchLiterals(w, [], s);
    if w <= s && s[|w|..] == [] { assert s == w + s[|w|..]; }
  }

  lemma {:induction false} MatchPrefix(w: string, s: string)
    ensures Matches(Literals(w) + [AnyString], s) <==> w <= s
  {
    MatchLiterals(w, [AnyString], s);
    if w <= s { MatchAll(s[|w|..]); }
  }

  lemma {:induction false} MatchSuffix(w: string, s: string)
    ensures Matches([AnyString] + Literals(w), s) <==> HasSuffix(s, w)
  {
    MatchAnyString(Literals(w), s);
    forall k | 0 <= k <= |s| ensures Matches(Literals(w), s[k..]) <==> s[k..] == w { MatchExactly(w, s[k..]); }
    if k :| 0 <= k <= |s| && s[k..] == w {
      assert k == |s| - |w|;
    }
  }

  lemma {:induction false} MatchContains(w: string, s: string)
    ensures Matches([AnyString] + Literals(w) + [AnyString], s) <==> Contains(s, w)
  {
    assert [AnyString] + Literals(w) + [AnyString] == [AnyString] + (Literals(w) + [AnyString]);
    MatchAnyString(Literals(w) + [AnyString], s);
    forall k | 0 <= k <= |s| ensures Matches(Literals(w) + [AnyString], s[k..]) <==> w <= s[k..] { MatchPrefix(w, s[k..]); }
  }

  /** A trailing _ takes the last character. */
  lemma {:induction false} MatchThenChar(w: string, s: string)
    ensures Matches(Literals(w) + [AnyChar], s) <==> s != [] && s[..|s| - 1] == w
  {
    MatchLiterals(w, [AnyChar], s);
    if w <= s {
      MatchAnyChar([], s[|w|..]);
      assert [AnyChar] + [] == [AnyChar];
      if s[|w|..] != [] { MatchNothing(s[|w|..][1..]); }
    }
  }

  lemma {:induction false} MatchSuffixThenChar(w: string, s: string)
    ensures Matches([AnyString] + Literals(w) + [AnyChar], s) <==> s != [] && HasSuffix(s[..|s| - 1], w)
  {
    assert [AnyString] + Literals(w) + [AnyChar] == [AnyString] + (Literals(w) + [AnyChar]);
    MatchAnyString(Literals(w) + [AnyChar], s);
    forall k | 0 <= k <= |s|
      ensures Matches(Literals(w) + [AnyChar], s[k..]) <==> k < |s| && s[..|s| - 1][k..] == w
    {
      MatchThenChar(w, s[k..]);
      if k < |s| { assert s[k..][..|s| - k - 1] == s[..|s| - 1][k..]; }
    }
    if k :| 0 <= k <= |s| && Matches(Literals(w) + [AnyChar], s[k..]) {
      assert s[..|s| - 1][k..] == w;
    }
    if s != [] && HasSuffix(s[..|s| - 1], w) {
      assert Matches(Literals(w) + [AnyChar], s[|s| - 1 - |w|..]);
    }
  }
}
