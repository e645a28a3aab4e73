/**
 Quoted patterns whose escape character is a metacharacter of regular expressions: which
 backslashes lose the escape character before them, and what the text is then.
 */
module MetaText {
  import opened LikeSpec
  import opened Escapes
  import opened LikeRegex
  import opened LikeFast
  import opened CustomPattern

  predicate IsEscape(e: char) { IsMeta(e) && e != BACKSLASH }

  predicate BeginsWithBackslash(u: Units) { u.Plain? && u.c == BACKSLASH }

  /** A wildcard whose text ends in the escape character. */
  predicate EndsDoubled(c: char, e: char) { (c == '_' && e == '.') || (c == '%' && e == '*') }

  // ---------------------------------------------------------------------------
  // Freeing backslashes
  // ---------------------------------------------------------------------------

  lemma {:induction false} EscapeQuote(e: char)
    requires IsEscape(e)
    ensures QuoteChar(e) == [BACKSLASH, e] && !IsWild(e)
  {
  }

  function Text(u: Units, e: char): string { Image(u, e, AnyText(e), OneText(e)) }

  /** The text in which some backslashes have lost the escape character before them. */
  function Freed(u: Units, e: char, after: bool): string {
    match u
    case End => []
    case Dangling => QuoteChar(e)
    case Plain(c, r) =>
      if EndsDoubled(c, e) && BeginsWithBackslash(r) && !(after && c == '_')
      then PlainImage(c, ".*", ".") + QUOTED + Freed(r.rest, e, true)
      else PlainImage(c, AnyText(e), OneText(e)) + Freed(r, e, c == BACKSLASH)
    case Escaped(c, r) =>
      if c == BACKSLASH then [BACKSLASH] + QUOTED + Freed(r, e, true)
      else if c == e && BeginsWithBackslash(r) then QuoteChar(e) + [BACKSLASH] + QUOTED + Freed(r.rest, e, true)
      else QuoteChar(e) + QuoteChar(c) + Freed(r, e, false)
  }

  /** Only a plain backslash begins with a quoted backslash. */
  lemma {:induction false} TextStart(u: Units, e: char)
    requires IsEscape(e)
    ensures QUOTED <= Text(u, e) ==> BeginsWithBackslash(u)
  {
    var s := Text(u, e);
    match u
    case End =>
    case Dangling => assert s[1] == e;
    case Plain(c, r) =>
      if IsWild(c) {
        assert s[0] == '.';
      } else if c != BACKSLASH {
        QuotedChar(c, Text(r, e));
      }
    case Escaped(_, _) => assert s[1] == e;
  }

  function Freeing(q: string, s: string, e: char): string {
    Replace(q, s, EscapedBackslash(e), QUOTED, QuoteChar(e))
  }

  /** Nothing is freed in x before y, if no escape character of x is followed by a quoted backslash. */
  lemma {:induction false} PieceStays(q: string, x: string, y: string, e: char)
    requires forall i | 0 <= i < |x| && x[i] == e :: !(QUOTED <= x[i + 1..] + y)
    ensures Freeing(q, x + y, e) == x + Freeing(q + x, y, e)
  {
    hide Replace, QuoteChar;
    forall i | 0 <= i < |x| ensures !(EscapedBackslash(e) <= x[i..] + y) {
      var z := x[i + 1..] + y;
      assert x[i..] + y == [x[i]] + z;
      if x[i] == e {
        AfterEscape(z, e);
      } else {
        assert ([x[i]] + z)[0] != EscapedBackslash(e)[0];
      }
    }
    ReplaceNowhere(q, x, y, EscapedBackslash(e), QUOTED, QuoteChar(e));
  }

  /** x stays, and the backslash behind it is freed unless the escape character before it is escaped. */
  lemma {:induction false} PieceFreed(q: string, x: string, y: string, e: char)
    requires e != BACKSLASH
    requires forall i | 0 <= i < |x| && x[i] == e :: i + 1 == |x| || x[i + 1] == e || (i + 2 == |x| && x[i + 1] == BACKSLASH)
    ensures var t := EscapedBackslash(e);
            Freeing(q, x + (t + y), e) == x + (if Even(q + x, e) then QUOTED else t) + Freeing(q + x + t, y, e)
  {
    hide Replace, QuoteChar;
    var t := EscapedBackslash(e);
    forall i | 0 <= i < |x| && x[i] == e ensures !(QUOTED <= x[i + 1..] + (t + y)) {
      var z := x[i + 1..] + (t + y);
      if i + 2 == |x| && x[i + 1] == BACKSLASH { assert z[1] == e; } else { assert z[0] == e; }
    }
    PieceStays(q, x, t + y, e);
    ReplaceFound(q + x, y, t, QUOTED, QuoteChar(e));
  }

  /** What is known of the text before. */
  predicate Precedes(q: string, after: bool) {
    if after then EndsWith(q, QUOTED) else q == [] || q[|q| - 1] != BACKSLASH
  }

  lemma {:induction false} QuotedEnd(q: string, x: string)
    ensures Precedes(q + (x + QUOTED), true)
  {
    var s := q + (x + QUOTED);
    assert s[|s| - 2..] == QUOTED;
  }

  lemma {:induction false} OtherEnd(q: string, x: string)
    requires x != [] && x[|x| - 1] != BACKSLASH
    ensures Precedes(q + x, false)
  {
  }

  /** Only behind a backslash a doubled dot looks like an escaped one. */
  lemma {:induction false} DoubledParity(q: string, c: char, e: char, after: bool)
    requires IsEscape(e) && EndsDoubled(c, e) && Precedes(q, after)
    ensures Even(q + PlainImage(c, ".*", "."), e) <==> !(after && c == '_')
  {
    hide Run;
    EscapeQuote(e);
    var x := PlainImage(c, ".*", ".");
    if after && c == '_' {
      var n := |q| - 1;
      assert q[|q| - 2..][0] == BACKSLASH && q[|q| - 2..][1] == BACKSLASH;
      assert q + x == q[..n] + QuoteChar(e);
      RunGrows(q[..n], e);
      assert q[..n] == q[..n - 1] + [BACKSLASH];
      RunEnds(q[..n - 1], [BACKSLASH], e);
    } else {
      var s := q + x;
      assert |s| > 1 ==> s[|s| - 2..][0] != BACKSLASH;
      NoTokenNoRun(s, e);
    }
  }

  lemma {:induction false} NoTokenNoRun(s: string, e: char)
    requires !EndsWith(s, QuoteChar(e))
    ensures Even(s, e)
  {
  }

  lemma {:induction false} DoubledShape(c: char, e: char)
    requires EndsDoubled(c, e)
    ensures var z := PlainImage(c, ".*", ".");
            PlainImage(c, AnyText(e), OneText(e)) == z + [e] && forall i | 0 <= i < |z| && z[i] == e :: i + 1 == |z|
  {
  }

  lemma {:induction false} FreedDoubled(q: string, c: char, y: string, e: char, after: bool)
    requires IsEscape(e) && EndsDoubled(c, e) && Precedes(q, after)
    ensures var x, z := PlainImage(c, AnyText(e), OneText(e)), PlainImage(c, ".*", ".");
            && Precedes(q + (x + QUOTED), true)
            && Freeing(q, x + QUOTED + y, e)
            == (if after && c == '_' then x + QUOTED else z + QUOTED) + Freeing(q + (x + QUOTED), y, e)
  {
    var t, x, z := EscapedBackslash(e), PlainImage(c, AnyText(e), OneText(e)), PlainImage(c, ".*", ".");
    hide Freeing, Run, Even, Precedes, QuoteChar, IsMeta, PlainImage, AnyText, OneText;
    DoubledShape(c, e);
    DoubledParity(q, c, e, after);
    QuotedEnd(q, x);
    PieceFreed(q, z, y, e);
    assert x + QUOTED == z + t && z + t + y == z + (t + y) && q + (z + t) == q + z + t;
  }

  lemma {:induction false} PlainFreed(q: string, c: char, y: string, e: char)
    requires IsEscape(e) && c != e && (EndsDoubled(c, e) ==> !(QUOTED <= y))
    ensures var x := PlainImage(c, AnyText(e), OneText(e));
            Freeing(q, x + y, e) == x + Freeing(q + x, y, e) && Precedes(q + x, c == BACKSLASH)
  {
    var x := PlainImage(c, AnyText(e), OneText(e));
    forall i | 0 <= i < |x| && x[i] == e ensures !(QUOTED <= x[i + 1..] + y) {
      var z := x[i + 1..] + y;
      if i == |x| - 1 { assert z == y; } else { assert z[0] == x[i + 1]; }
    }
    if c == BACKSLASH { QuotedEnd(q, []); assert [] + QUOTED == x; } else { OtherEnd(q, x); }
    hide Freeing;
    PieceStays(q, x, y, e);
  }

  lemma {:induction false} EscapedFreed(q: string, c: char, y: string, e: char)
    requires IsEscape(e) && c != BACKSLASH && (c == e ==> !(QUOTED <= y))
    ensures var x := QuoteChar(e) + QuoteChar(c);
            Freeing(q, x + y, e) == x + Freeing(q + x, y, e) && Precedes(q + x, false)
  {
    var x := QuoteChar(e) + QuoteChar(c);
    forall i | 0 <= i < |x| && x[i] == e ensures !(QUOTED <= x[i + 1..] + y) {
      var z := x[i + 1..] + y;
      if i == |x| - 1 {
        assert z == y;
      } else {
        assert i == 1 && z == QuoteChar(c) + y;
        QuotedChar(c, y);
      }
    }
    OtherEnd(q, x);
    hide Freeing;
    PieceStays(q, x, y, e);
  }

  /** A backslash that quotes the escape character, maybe with another quoted escape character before it. */
  predicate IsOpening(x: string, e: char) { x == [BACKSLASH] || x == [BACKSLASH, e, BACKSLASH] }

  lemma {:induction false} OpeningIsEven(q: string, x: string, e: char)
    requires e != BACKSLASH && IsOpening(x, e)
    ensures Even(q + x, e)
    ensures forall i | 0 <= i < |x| && x[i] == e :: i + 2 == |x| && x[i + 1] == BACKSLASH
  {
    hide Run, QuoteChar;
    RunEnds(q, x, e);
  }

  /** The escape character behind it is taken off. */
  lemma {:induction false} BackslashFreed(q: string, x: string, y: string, e: char)
    requires e != BACKSLASH && IsOpening(x, e)
    ensures var t := EscapedBackslash(e);
            Freeing(q, x + t + y, e) == x + QUOTED + Freeing(q + (x + t), y, e) && Precedes(q + (x + t), true)
  {
    hide Freeing, Precedes, Even, IsOpening;
    var t := EscapedBackslash(e);
    OpeningIsEven(q, x, e);
    PieceFreed(q, x, y, e);
    QuotedEnd(q, x + [e]);
    assert x + [e] + QUOTED == x + t && x + t + y == x + (t + y) && q + (x + t) == q + x + t;
  }

  lemma {:induction false} FreedText(q: string, u: Units, e: char, after: bool)
    requires IsEscape(e) && NoPlain(u, e) && Precedes(q, after)
    ensures Freeing(q, Text(u, e), e) == Freed(u, e, after)
    decreases u, 0
  {
    hide Freeing, QuoteChar, PlainImage, IsMeta, AnyText, OneText, Precedes;
    var tok := QuoteChar(e);
    EscapeQuote(e);
    QuotedBackslash();
    match u
    case End => NothingFreed(q, e);
    case Dangling =>
      PieceStays(q, tok, [], e);
      NothingFreed(q + tok, e);
      assert tok + [] == tok;
    case Plain(c, r) =>
      var x := PlainImage(c, AnyText(e), OneText(e));
      if EndsDoubled(c, e) && BeginsWithBackslash(r) {
        BackslashText(r, e);
        assert x + (QUOTED + Text(r.rest, e)) == x + QUOTED + Text(r.rest, e);
        FreedDoubled(q, c, Text(r.rest, e), e, after);
        FreedText(q + (x + QUOTED), r.rest, e, true);
        assert x + QUOTED + Freed(r.rest, e, true) == x + (QUOTED + Freed(r.rest, e, true));
      } else {
        TextStart(r, e);
        PlainFreed(q, c, Text(r, e), e);
        FreedText(q + x, r, e, c == BACKSLASH);
      }
    case Escaped(c, r) =>
      if c == BACKSLASH {
        StrayText(q, [BACKSLASH], r, e);
        assert tok + QuoteChar(c) == [BACKSLASH] + EscapedBackslash(e);
      } else if c == e && BeginsWithBackslash(r) {
        BackslashText(r, e);
        assert tok + [BACKSLASH] == [BACKSLASH, e, BACKSLASH];
        StrayText(q, tok + [BACKSLASH], r.rest, e);
        assert tok + tok + (QUOTED + Text(r.rest, e)) == tok + [BACKSLASH] + EscapedBackslash(e) + Text(r.rest, e);
      } else {
        TextStart(r, e);
        EscapedFreed(q, c, Text(r, e), e);
        FreedText(q + (tok + QuoteChar(c)), r, e, false);
      }
  }

  lemma {:induction false} StrayText(q: string, x: string, r: Units, e: char)
    requires IsEscape(e) && NoPlain(r, e) && IsOpening(x, e)
    ensures Freeing(q, x + EscapedBackslash(e) + Text(r, e), e) == x + QUOTED + Freed(r, e, true)
    decreases r, 1
  {
    hide Freeing, QuoteChar, IsMeta, IsOpening, Precedes, Text, Freed;
    BackslashFreed(q, x, Text(r, e), e);
    FreedText(q + (x + EscapedBackslash(e)), r, e, true);
  }

  lemma {:induction false} NothingFreed(q: string, e: char)
    ensures Freeing(q, [], e) == []
  {
  }

  lemma {:induction false} BackslashText(u: Units, e: char)
    requires BeginsWithBackslash(u)
    ensures Text(u, e) == QUOTED + Text(u.rest, e) && forall after :: Freed(u, e, after) == QUOTED + Freed(u.rest, e, true)
  {
    assert PlainImage(BACKSLASH, AnyText(e), OneText(e)) == QUOTED;
  }

  lemma {:induction false} PreparedIsFreedText(p: string, e: char)
    requires IsEscape(e)
    ensures Prepared(p, e) == Freed(Parse(p, e), e, false) && NoPlain(Parse(p, e), e)
  {
    var u := Parse(p, e);
    EscapeQuote(e);
    assert Even([], e);
    ParseNoPlain(p, e);
    FreedText([], u, e, false);
    hide Replace, Run, Even, Quote, QuoteChar, IsMeta, AnyText, OneText;
    QuoteIsImage(p, e);
    ReplaceWildcards([], u, e, Percents);
    ReplaceWildcards([], u, e, Underscores);
  }
}
