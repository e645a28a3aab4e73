/**
 likeKey.Pattern for a custom escape character: quoting, replacing the wildcards that are not
 escaped, taking the escape off escaped backslashes, rewriting the other escapes to doubled
 backslashes and removing those. It means LIKE for every pattern if the escape character is
 not a metacharacter of regular expressions.
 */
module CustomPattern {
  import opened Values
  import opened LikeSpec
  import opened Escapes
  import opened LikeRegex
  import opened LikeFast

  // ---------------------------------------------------------------------------
  // The conversion
  // ---------------------------------------------------------------------------

  function Put(x: string, o: Option<string>): Option<string> {
    match o
    case None => None
    case Some(y) => Some(x + y)
  }

  /** replaceCustomEscape, character by character. */
  function Custom(s: string, e: char): Option<string>
    decreases |s|
  {
    if s == [] then Some([])
    else if s[0] == e then
      if |s| == 1 then None
      else if s[1] == e then Put([e], Custom(s[2..], e))
      else Put(QUOTED, Custom(s[1..], e))
    else if s[0] == BACKSLASH then
      if |s| == 1 then None
      else if s[1] == BACKSLASH then Put(QUOTED + QUOTED, Custom(s[2..], e))
      else if s[1] == e then
        if |s| == 2 then None
        else if |s| >= 4 && s[2] == BACKSLASH && s[3] == e then Put([BACKSLASH, e], Custom(s[4..], e))
        else Put([BACKSLASH], Custom(s[2..], e))
      else Put([BACKSLASH, s[1]], Custom(s[2..], e))
    else Put([s[0]], Custom(s[1..], e))
  }

  /** The pattern before its escapes are rewritten. */
  function Prepared(p: string, e: char): string {
    var tok := QuoteChar(e);
    var a := if e == '%' then Quote(p) else Replace([], Quote(p), "%", AnyText(e), tok);
    var b := if e == '_' then a else Replace([], a, "_", OneText(e), tok);
    Replace([], b, [e] + QUOTED, QUOTED, tok)
  }

  function PatternOf(p: string, e: char): Option<string> {
    match Custom(Prepared(p, e), e)
    case None => None
    case Some(r) => Some(Unescape(r, QUOTED))
  }

  /** The conversion fails exactly for a pattern that ends in an escape, and otherwise means LIKE. */
  predicate IsRight(p: string, e: char) {
    match PatternOf(p, e)
    case None => EndsInEscape(p, e)
    case Some(r) => !EndsInEscape(p, e) && ReadRegex(r) == Some(Tokens(Parse(p, e)))
  }

  // ---------------------------------------------------------------------------
  // The text of a pattern at each stage
  // ---------------------------------------------------------------------------

  /** With the escape taken off escaped backslashes. */
  function FreedImage(u: Units, e: char): string {
    match u
    case End => []
    case Dangling => [e]
    case Plain(c, r) => PlainImage(c, ".*", ".") + FreedImage(r, e)
    case Escaped(c, r) => (if c == BACKSLASH then QUOTED else [e] + QuoteChar(c)) + FreedImage(r, e)
  }

  /** With doubled backslashes for escapes. */
  function DoubledImage(u: Units, e: char): string {
    match u
    case End => []
    case Dangling => []
    case Plain(c, r) => (if c == BACKSLASH then QUOTED + QUOTED else PlainImage(c, ".*", ".")) + DoubledImage(r, e)
    case Escaped(c, r) => (if c == e then [e] else QUOTED + QuoteChar(c)) + DoubledImage(r, e)
  }

  // ---------------------------------------------------------------------------
  // Replacing
  // ---------------------------------------------------------------------------

  predicate EvenRun(q: string, e: char) { Run(q, [e]) % 2 == 0 }

  lemma {:induction false} RunStops(q: string, x: string, e: char)
    requires x != [] && x[|x| - 1] != e
    ensures EvenRun(q + x, e)
  {
    hide Run;
    var n := |x| - 1;
    assert q + x == q + x[..n] + [x[n]];
    RunSnoc(q + x[..n], x[n], e);
  }

  lemma {:induction false} RunFlips(q: string, e: char)
    ensures EvenRun(q + [e], e) == !EvenRun(q, e)
  {
    hide Run;
    RunSnoc(q, e, e);
  }

  /** The images of plain characters, and of wildcards, never hold the escape character. */
  lemma {:induction false} PlainFree(c: char, e: char)
    requires c != e && !IsMeta(e)
    ensures var x := PlainImage(c, ".*", "."); x != [] && e !in x && x[|x| - 1] != e
    ensures e !in QuoteChar(c) && QuoteChar(c) != [] && QuoteChar(c)[|QuoteChar(c)| - 1] == c
  {
  }

  lemma {:induction false} OddKeeps(q: string, y: string, target: string, repl: string, e: char)
    requires target != []
    ensures Replace(q, target + y, target, repl, [e])
         == (if EvenRun(q, e) then repl else target) + Replace(q + target, y, target, repl, [e])
  {
    hide Replace, Run;
    ReplaceFound(q, y, target, repl, [e]);
  }

  /** An escape character that looks like a wildcard leaves no such wildcard. */
  lemma {:induction false} NoWild(u: Units, e: char, percent: string, underscore: string)
    requires NoPlain(u, e)
    ensures e == '%' ==> Image(u, e, percent, underscore) == Image(u, e, ".*", underscore)
    ensures e == '_' ==> Image(u, e, percent, underscore) == Image(u, e, percent, ".")
  {
    match u
    case End =>
    case Dangling =>
    case Plain(_, r) => NoWild(r, e, percent, underscore);
    case Escaped(_, r) => NoWild(r, e, percent, underscore);
  }

  // ---------------------------------------------------------------------------
  // Taking the escape off escaped backslashes
  // ---------------------------------------------------------------------------

  function EscapedBackslash(e: char): string { [e] + QUOTED }

  lemma {:induction false} AfterEscape(y: string, e: char)
    ensures EscapedBackslash(e) <= [e] + y ==> QUOTED <= y
  {
    if EscapedBackslash(e) <= [e] + y { assert EscapedBackslash(e)[1..] <= ([e] + y)[1..]; }
  }

  /** An escape character that no quoted backslash follows is passed over. */
  lemma {:induction false} FreeChar(q: string, y: string, e: char)
    requires !(QUOTED <= y)
    ensures Replace(q, [e] + y, EscapedBackslash(e), QUOTED, [e]) == [e] + Replace(q + [e], y, EscapedBackslash(e), QUOTED, [e])
  {
    hide Replace;
    AfterEscape(y, e);
    ReplaceChar(q, e, y, EscapedBackslash(e), QUOTED, [e]);
  }

  /** A quoted character other than a backslash does not look like one. */
  lemma {:induction false} QuotedChar(c: char, y: string)
    requires c != BACKSLASH
    ensures !(QUOTED <= QuoteChar(c) + y)
  {
    var s := QuoteChar(c) + y;
    assert c == if IsMeta(c) then s[1] else s[0];
  }

  /** Only a plain backslash begins with a quoted backslash. */
  lemma {:induction false} ImageStart(u: Units, e: char)
    requires !IsMeta(e) && NoPlain(u, e)
    ensures QUOTED <= Image(u, e, ".*", ".") ==> u.Plain? && u.c == BACKSLASH
  {
    var s := Image(u, e, ".*", ".");
    match u
    case End =>
    case Dangling =>
    case Plain(c, r) =>
      if c == '%' || c == '_' {
        assert s[0] == '.';
      } else if c != BACKSLASH {
        QuotedChar(c, Image(r, e, ".*", "."));
      }
    case Escaped(_, _) =>
      assert s[0] == e;
  }

  lemma {:induction false} FreeBackslashes(q: string, u: Units, e: char)
    requires !IsMeta(e) && EvenRun(q, e) && NoPlain(u, e)
    ensures Replace(q, Image(u, e, ".*", "."), EscapedBackslash(e), QUOTED, [e]) == FreedImage(u, e)
    decreases u, 0
  {
    hide Replace, Run, EvenRun, QuoteChar, PlainImage, IsMeta;
    var t := EscapedBackslash(e);
    OrdinaryQuote(e);
    match u
    case End => ReplaceNothing(q, t, QUOTED, [e]);
    case Dangling =>
      FreeChar(q, [], e);
      ReplaceNothing(q + [e], t, QUOTED, [e]);
      assert [e] + [] == [e];
    case Plain(c, r) =>
      var x := PlainImage(c, ".*", ".");
      PlainFree(c, e);
      RunStops(q, x, e);
      ReplacePlain(q, x, Image(r, e, ".*", "."), t, QUOTED, [e]);
      FreeBackslashes(q + x, r, e);
    case Escaped(c, r) =>
      var y := Image(r, e, ".*", ".");
      if c == BACKSLASH {
        QuotedBackslash();
        RunStops(q, t, e);
        OddKeeps(q, y, t, QUOTED, e);
        FreeBackslashes(q + t, r, e);
      } else if c == e {
        FreeEscape(q, r, e);
      } else {
        var x := QuoteChar(c);
        QuotedChar(c, y);
        PlainFree(c, e);
        assert [e] + x + y == [e] + (x + y) && q + [e] + x == q + ([e] + x);
        FreeChar(q, x + y, e);
        ReplacePlain(q + [e], x, y, t, QUOTED, [e]);
        RunStops(q, [e] + x, e);
        FreeBackslashes(q + ([e] + x), r, e);
      }
  }

  lemma {:induction false} OrdinaryQuote(e: char)
    requires !IsMeta(e)
    ensures QuoteChar(e) == [e] && e != BACKSLASH && AnyText(e) == ".*" && OneText(e) == "."
  {
  }

  /** After an escaped escape character a plain backslash looks escaped, and the parity tells that it is not. */
  lemma {:induction false} FreeEscape(q: string, r: Units, e: char)
    requires !IsMeta(e) && EvenRun(q, e) && NoPlain(r, e)
    ensures Replace(q, [e] + QuoteChar(e) + Image(r, e, ".*", "."), EscapedBackslash(e), QUOTED, [e])
         == [e] + QuoteChar(e) + FreedImage(r, e)
    decreases r, 1
  {
    hide Replace, Run, EvenRun, QuoteChar, PlainImage, IsMeta;
    var t, y := EscapedBackslash(e), Image(r, e, ".*", ".");
    OrdinaryQuote(e);
    RunFlips(q, e);
    RunFlips(q + [e], e);
    assert [e] + QuoteChar(e) + y == [e] + ([e] + y);
    assert ([e] + y)[0] == e;
    FreeChar(q, [e] + y, e);
    if QUOTED <= y {
      ImageStart(r, e);
      QuotedBackslash();
      var z := Image(r.rest, e, ".*", ".");
      assert [e] + y == t + z;
      OddKeeps(q + [e], z, t, QUOTED, e);
      RunStops(q + [e], t, e);
      FreeBackslashes(q + [e] + t, r.rest, e);
      assert [e] + (t + FreedImage(r.rest, e)) == [e] + [e] + (QUOTED + FreedImage(r.rest, e));
    } else {
      FreeChar(q + [e], y, e);
      FreeBackslashes(q + [e] + [e], r, e);
      assert [e] + ([e] + FreedImage(r, e)) == [e] + [e] + FreedImage(r, e);
    }
  }

  // ---------------------------------------------------------------------------
  // Rewriting the other escapes
  // ---------------------------------------------------------------------------

  lemma {:induction false} CustomChar(c: char, y: string, e: char)
    requires c != e && c != BACKSLASH
    ensures Custom([c] + y, e) == Put([c], Custom(y, e))
  {
    assert ([c] + y)[1..] == y;
  }

  lemma {:induction false} CustomPair(c: char, y: string, e: char)
    requires c != e && e != BACKSLASH
    ensures Custom([BACKSLASH, c] + y, e) == Put(if c == BACKSLASH then QUOTED + QUOTED else [BACKSLASH, c], Custom(y, e))
  {
    assert ([BACKSLASH, c] + y)[2..] == y;
  }

  lemma {:induction false} CustomEscape(y: string, e: char)
    ensures y != [] && y[0] == e ==> Custom([e] + y, e) == Put([e], Custom(y[1..], e))
    ensures y != [] && y[0] != e ==> Custom([e] + y, e) == Put(QUOTED, Custom(y, e))
    ensures y == [] ==> Custom([e] + y, e) == None
  {
    assert ([e] + y)[1..] == y;
    if y != [] { assert ([e] + y)[2..] == y[1..]; }
  }

  lemma {:induction false} CustomDoubled(c: char, y: string, e: char)
    requires c != BACKSLASH
    ensures Custom(Doubled(c, e) + y, e) == Put([c], Custom(y, e))
  {
    hide Custom;
    if c == e {
      assert Doubled(c, e) + y == [e] + ([e] + y) && ([e] + y)[1..] == y;
      CustomEscape([e] + y, e);
    } else {
      CustomChar(c, y, e);
    }
  }

  lemma {:induction false} CustomQuoted(c: char, y: string, e: char)
    requires c != e && e != BACKSLASH
    ensures Custom(QuoteChar(c) + y, e) == Put(if c == BACKSLASH then QUOTED + QUOTED else QuoteChar(c), Custom(y, e))
  {
    hide Custom;
    if IsMeta(c) { CustomPair(c, y, e); } else { CustomChar(c, y, e); }
  }

  lemma {:induction false} PutTwice(x: string, y: string, o: Option<string>)
    ensures Put(x, Put(y, o)) == Put(x + y, o)
  {
    if o.Some? { assert x + (y + o.value) == x + y + o.value; }
  }

  lemma {:induction false} CustomPlain(c: char, y: string, e: char)
    requires c != e && e != BACKSLASH
    ensures Custom(PlainImage(c, AnyText(e), OneText(e)) + y, e)
         == Put(if c == BACKSLASH then QUOTED + QUOTED else PlainImage(c, ".*", "."), Custom(y, e))
  {
    hide Custom;
    if c == '%' {
      var dot, star := Doubled('.', e), Doubled('*', e);
      assert dot + star + y == dot + (star + y);
      CustomDoubled('.', star + y, e);
      CustomDoubled('*', y, e);
      PutTwice(['.'], ['*'], Custom(y, e));
      assert ['.'] + ['*'] == ".*";
    } else if c == '_' {
      CustomDoubled('.', y, e);
    } else {
      CustomQuoted(c, y, e);
    }
  }

  lemma {:induction false} CustomEscaped(c: char, y: string, e: char)
    requires !IsMeta(e)
    ensures Custom((if c == BACKSLASH then QUOTED else [e] + QuoteChar(c)) + y, e)
         == Put(if c == e then [e] else QUOTED + QuoteChar(c), Custom(y, e))
  {
    hide Custom;
    QuotedBackslash();
    if c == BACKSLASH {
      CustomPair(c, y, e);
    } else {
      var z := QuoteChar(c) + y;
      assert [e] + QuoteChar(c) + y == [e] + z;
      CustomEscape(z, e);
      if c == e {
        assert z[1..] == y;
      } else {
        CustomQuoted(c, y, e);
        PutTwice(QUOTED, QuoteChar(c), Custom(y, e));
      }
    }
  }

  lemma {:induction false} CustomImage(u: Units, e: char)
    requires !IsMeta(e) && NoPlain(u, e)
    ensures Custom(FreedImage(u, e), e) == if IsDangling(u) then None else Some(DoubledImage(u, e))
  {
    match u
    case End =>
    case Dangling =>
      CustomEscape([], e);
      assert [e] + [] == [e];
    case Plain(c, r) =>
      hide Custom;
      OrdinaryQuote(e);
      CustomPlain(c, FreedImage(r, e), e);
      CustomImage(r, e);
    case Escaped(c, r) =>
      hide Custom;
      CustomEscaped(c, FreedImage(r, e), e);
      CustomImage(r, e);
  }

  // ---------------------------------------------------------------------------
  // Removing the doubled backslashes
  // ---------------------------------------------------------------------------

  lemma {:induction false} UnescapeDoubled(u: Units, e: char)
    requires !IsMeta(e) && NoPlain(u, e)
    ensures Unescape(DoubledImage(u, e), QUOTED) == Regex(u)
  {
    match u
    case End =>
    case Dangling =>
    case Plain(c, r) =>
      hide Unescape;
      UnescapeDoubled(r, e);
      QuotedBackslash();
      if c == BACKSLASH { PassEscaped(c, DoubledImage(r, e)); } else { PassPlain(c, DoubledImage(r, e)); }
    case Escaped(c, r) =>
      hide Unescape;
      UnescapeDoubled(r, e);
      QuotedBackslash();
      if c == e { PassChar(e, DoubledImage(r, e)); } else { PassEscaped(c, DoubledImage(r, e)); }
  }

  // ---------------------------------------------------------------------------
  // The result
  // ---------------------------------------------------------------------------

  lemma {:induction false} PreparedIsFreed(p: string, e: char)
    requires !IsMeta(e)
    ensures Prepared(p, e) == FreedImage(Parse(p, e), e)
  {
    var u := Parse(p, e);
    NoRun(e);
    OrdinaryQuote(e);
    assert EvenRun([], e) && Even([], e);
    hide Replace, Run, Even, EvenRun, Quote;
    ParseNoPlain(p, e);
    QuoteIsImage(p, e);
    NoWild(u, e, "%", "_");
    if e != '%' { ReplaceWildcards([], u, e, Percents); }
    NoWild(u, e, ".*", "_");
    if e != '_' { ReplaceWildcards([], u, e, Underscores); }
    FreeBackslashes([], u, e);
  }

  /** For an ordinary escape character the conversion is right about every pattern. */
  lemma {:induction false} OrdinaryIsRight(p: string, e: char)
    requires !IsMeta(e)
    ensures IsRight(p, e)
  {
    hide Prepared, Custom, Unescape, ReadRegex;
    var u := Parse(p, e);
    ParseNoPlain(p, e);
    PreparedIsFreed(p, e);
    CustomImage(u, e);
    UnescapeDoubled(u, e);
    RegexReads(u);
  }
}
