/**
 From a LIKE pattern with the default escape character to a regular expression: quoting,
 rewriting the wildcards that are not escaped, and removing the escapes.
 */
module LikeRegex {
  import opened Values
  import opened LikeSpec
  import opened Escapes

  const BACKSLASH: char := '\\'

  /** One backslash of a pattern, after quoting. */
  const QUOTED: string := ['\\', '\\']

  predicate IsMeta(c: char) { c in "\\.+*?()|[]{}^$" }

  function QuoteChar(c: char): (x: string)
    ensures x != [] && x[|x| - 1] == c
  {
    if IsMeta(c) then [BACKSLASH, c] else [c]
  }

  /** regexp.QuoteMeta: the text that matches s literally. */
  function Quote(s: string): string {
    if s == [] then [] else QuoteChar(s[0]) + Quote(s[1..])
  }

  predicate IsDigit(c: char) { '0' <= c <= '9' }

  /** ASCII, but neither a letter nor a digit. */
  predicate IsPunctuation(c: char) {
    c as int < 128 && !IsDigit(c) && !('a' <= c <= 'z') && !('A' <= c <= 'Z')
  }

  function AfterDigits(s: string): string {
    if s != [] && IsDigit(s[0]) then AfterDigits(s[1..]) else s
  }

  /** What follows a number without leading zeros, if there is one. */
  function AfterNumber(s: string): Option<string> {
    if s == [] || !IsDigit(s[0]) then None
    else if s[0] != '0' then Some(AfterDigits(s))
    else if |s| > 1 && IsDigit(s[1]) then None
    else Some(s[1..])
  }

  /** {n}, {n,} or {n,m}: any other brace stands for itself. */
  predicate StartsRepeat(s: string) {
    && "{" <= s
    && var n := AfterNumber(s[1..]);
    && n.Some?
    && ("}" <= n.value
        || ("," <= n.value && ("}" <= n.value[1..] || (var m := AfterNumber(n.value[1..]); m.Some? && "}" <= m.value))))
  }

  /** A closing bracket or brace, and an opening brace that starts no repetition, need no quoting. */
  predicate StandsForItself(r: string)
    requires r != []
  {
    !IsMeta(r[0]) || r[0] == ']' || r[0] == '}' || (r[0] == '{' && !StartsRepeat(r))
  }

  /**
   The part of Go's regular expression syntax that is used on purpose: characters that stand
   for themselves, quoted punctuation, a dot and a starred dot. Everything else, as the
   conversion may produce it for an escape character that is itself a metacharacter, is not
   read: classes such as \w, repetitions, alternatives, groups, anchors and what is no
   regular expression.
   */
  function ReadRegex(r: string): Option<seq<Token>> {
    if r == [] then Some([])
    else if r[0] == BACKSLASH then
      if |r| > 1 && IsPunctuation(r[1]) then Then(Literal(r[1]), ReadRegex(r[2..])) else None
    else if r[0] == '.' then
      if |r| > 1 && r[1] == '*' then Then(AnyString, ReadRegex(r[2..])) else Then(AnyChar, ReadRegex(r[1..]))
    else if StandsForItself(r) then Then(Literal(r[0]), ReadRegex(r[1..]))
    else None
  }

  function Then(t: Token, ts: Option<seq<Token>>): Option<seq<Token>> {
    match ts
    case None => None
    case Some(v) => Some([t] + v)
  }

  // ---------------------------------------------------------------------------
  // The text of a pattern at each stage
  // ---------------------------------------------------------------------------

  function PlainImage(c: char, percent: string, underscore: string): string {
    if c == '%' then percent else if c == '_' then underscore else QuoteChar(c)
  }

  /** The quoted pattern, with the given texts for its unescaped wildcards. */
  function Image(u: Units, e: char, percent: string, underscore: string): string {
    match u
    case End => []
    case Dangling => QuoteChar(e)
    case Plain(c, r) => PlainImage(c, percent, underscore) + Image(r, e, percent, underscore)
    case Escaped(c, r) => QuoteChar(e) + QuoteChar(c) + Image(r, e, percent, underscore)
  }

  /** The regular expression for the units of a pattern. */
  function Regex(u: Units): string {
    match u
    case End => []
    case Dangling => []
    case Plain(c, r) => PlainImage(c, ".*", ".") + Regex(r)
    case Escaped(c, r) => QuoteChar(c) + Regex(r)
  }

  predicate NoPlain(u: Units, esc: char) {
    match u
    case End => true
    case Dangling => true
    case Plain(c, r) => c != esc && NoPlain(r, esc)
    case Escaped(_, r) => NoPlain(r, esc)
  }

  lemma {:induction false} ParseNoPlain(p: string, esc: char)
    ensures NoPlain(Parse(p, esc), esc)
  {
    if p == [] {
    } else if p[0] != esc {
      ParseNoPlain(p[1..], esc);
    } else if |p| > 1 {
      ParseNoPlain(p[2..], esc);
    }
  }

  lemma {:induction false} QuoteStep(s: string)
    ensures s != [] ==> Quote(s) == QuoteChar(s[0]) + Quote(s[1..])
    ensures |s| > 1 ==> Quote(s) == QuoteChar(s[0]) + QuoteChar(s[1]) + Quote(s[2..])
  {
    if |s| > 1 {
      assert s[1..][1..] == s[2..];
      assert Quote(s[1..]) == QuoteChar(s[1]) + Quote(s[2..]);
    }
  }

  lemma {:induction false} QuoteIsImage(p: string, e: char)
    ensures Quote(p) == Image(Parse(p, e), e, "%", "_")
  {
    if p == [] {
    } else {
      QuoteStep(p);
      hide Quote;
      if p[0] != e {
        QuoteIsImage(p[1..], e);
      } else if |p| == 1 {
        EmptyQuote();
        assert p[1..] == [];
      } else {
        QuoteIsImage(p[2..], e);
      }
    }
  }

  lemma {:induction false} EmptyQuote()
    ensures Quote([]) == []
  {
  }

  // ---------------------------------------------------------------------------
  // Rewriting the wildcards
  // ---------------------------------------------------------------------------

  /** Nothing at the end of q escapes what follows. */
  predicate Even(q: string, e: char) { Run(q, QuoteChar(e)) % 2 == 0 }

  lemma {:induction false} LastOfSuffix(s: string, tok: string)
    requires tok != []
    ensures EndsWith(s, tok) ==> s != [] && s[|s| - 1] == tok[|tok| - 1]
  {
    if EndsWith(s, tok) { assert s[|s| - |tok|..][|tok| - 1] == s[|s| - 1]; }
  }

  lemma {:induction false} RunEnds(q: string, x: string, e: char)
    requires x != [] && x[|x| - 1] != e
    ensures !EndsWith(q + x, QuoteChar(e)) && Run(q + x, QuoteChar(e)) == 0
  {
    var s := q + x;
    assert s[|s| - 1] != e;
    LastOfSuffix(s, QuoteChar(e));
  }

  lemma {:induction false} RunGrows(q: string, e: char)
    ensures Run(q + QuoteChar(e), QuoteChar(e)) == 1 + Run(q, QuoteChar(e))
  {
    var x := QuoteChar(e);
    assert (q + x)[..|q|] == q && (q + x)[|q|..] == x;
  }

  lemma {:induction false} ReplaceNothing(q: string, wanted: string, repl: string, tok: string)
    requires wanted != [] && tok != []
    ensures Replace(q, [], wanted, repl, tok) == []
  {
  }

  lemma {:induction false} QuotedBackslash()
    ensures QuoteChar(BACKSLASH) == QUOTED == PlainImage(BACKSLASH, ".*", ".") && IsMeta(BACKSLASH)
    ensures AnyText(BACKSLASH) == ".*" && OneText(BACKSLASH) == "."
  {
  }

  lemma {:induction false} NotInQuote(w: char, c: char)
    requires w != c && w != BACKSLASH
    ensures w !in QuoteChar(c)
  {
  }

  lemma {:induction false} EscapedEven(q: string, c: char, e: char)
    requires Even(q, e)
    ensures Even(q + (QuoteChar(e) + QuoteChar(c)), e)
  {
    hide Run, QuoteChar;
    var tok := QuoteChar(e);
    if c == e {
      RunGrows(q, e);
      RunGrows(q + tok, e);
      assert q + tok + tok == q + (tok + tok);
    } else {
      RunEnds(q, tok + QuoteChar(c), e);
    }
  }

  lemma {:induction false} WildIsPlain(w: char)
    requires w == '%' || w == '_'
    ensures QuoteChar(w) == [w]
  {
  }

  /** A unit that is escaped is copied. */
  lemma {:induction false} EscapedStage(q: string, c: char, y: string, e: char, w: char, repl: string)
    requires Even(q, e) && (w == '%' || w == '_') && w != e
    ensures var tok := QuoteChar(e); var x := tok + QuoteChar(c);
            Replace(q, x + y, [w], repl, tok) == x + Replace(q + x, y, [w], repl, tok)
  {
    hide Replace, Run, QuoteChar, IsMeta;
    var tok := QuoteChar(e);
    var x := tok + QuoteChar(c);
    NotInQuote(w, e);
    if c == w {
      WildIsPlain(w);
      RunGrows(q, e);
      assert x + y == tok + ([w] + y) && q + x == q + tok + [w];
      ReplacePlain(q, tok, [w] + y, [w], repl, tok);
      ReplaceFound(q + tok, y, [w], repl, tok);
      assert tok + ([w] + Replace(q + x, y, [w], repl, tok)) == x + Replace(q + x, y, [w], repl, tok);
    } else {
      NotInQuote(w, c);
      ReplacePlain(q, x, y, [w], repl, tok);
    }
  }

  /** A unit that is not escaped is replaced if it is the wanted wildcard. */
  lemma {:induction false} PlainStage(q: string, x: string, y: string, e: char, wanted: string, repl: string)
    requires Even(q, e) && |wanted| == 1 && !EndsWith(q + x, QuoteChar(e)) && (x == wanted || wanted[0] !in x)
    ensures Replace(q, x + y, wanted, repl, QuoteChar(e))
         == (if x == wanted then repl else x) + Replace(q + x, y, wanted, repl, QuoteChar(e)) && Even(q + x, e)
  {
    assert Run(q + x, QuoteChar(e)) == 0;
    hide Replace, Run;
    if x == wanted {
      ReplaceFound(q, y, wanted, repl, QuoteChar(e));
    } else {
      ReplacePlain(q, x, y, wanted, repl, QuoteChar(e));
    }
  }

  /** First the % are replaced, then the _. */
  datatype Stage = Percents | Underscores

  function Wanted(st: Stage): string { if st.Percents? then "%" else "_" }

  function Doubled(c: char, e: char): string { if c == e then [c, c] else [c] }

  /** What stands for any string and for any character. An escape character in it is doubled. */
  function AnyText(e: char): string { Doubled('.', e) + Doubled('*', e) }

  function OneText(e: char): string { Doubled('.', e) }

  function Meant(st: Stage, e: char): string { if st.Percents? then AnyText(e) else OneText(e) }

  /** How a % stands before a stage, and how a _ stands after it. */
  function PercentBefore(st: Stage, e: char): string { if st.Percents? then "%" else AnyText(e) }

  function UnderscoreAfter(st: Stage, e: char): string { if st.Percents? then "_" else OneText(e) }

  /** At each stage a plain character stands for itself unless it is the wildcard of the stage. */
  lemma {:induction false} PlainShape(c: char, e: char, st: Stage)
    ensures var x := PlainImage(c, PercentBefore(st, e), "_");
            && (x == Wanted(st) || Wanted(st)[0] !in x)
            && PlainImage(c, AnyText(e), UnderscoreAfter(st, e)) == if x == Wanted(st) then Meant(st, e) else x
  {
  }

  /** A plain character does not look like an escape character. */
  lemma {:induction false} PlainEnd(q: string, c: char, e: char, st: Stage)
    requires c != e
    ensures !EndsWith(q + PlainImage(c, PercentBefore(st, e), "_"), QuoteChar(e))
  {
    var x := PlainImage(c, PercentBefore(st, e), "_");
    if x[|x| - 1] == e {
      var s := q + x;
      assert x == ".**" && e == '*';
      assert s[|s| - 2] == '*' && s[|s| - 2..][0] != QuoteChar(e)[0];
    } else {
      RunEnds(q, x, e);
    }
  }

  /** An unescaped wildcard is replaced by its meaning, an escaped one stays. */
  lemma {:induction false} ReplaceWildcards(q: string, u: Units, e: char, st: Stage)
    requires [e] != Wanted(st) && Even(q, e) && NoPlain(u, e)
    ensures Replace(q, Image(u, e, PercentBefore(st, e), "_"), Wanted(st), Meant(st, e), QuoteChar(e))
         == Image(u, e, AnyText(e), UnderscoreAfter(st, e))
    decreases u
  {
    hide Replace, Run, Even, QuoteChar, PlainImage;
    var tok, before := QuoteChar(e), PercentBefore(st, e);
    match u
    case End => ReplaceNothing(q, Wanted(st), Meant(st, e), tok);
    case Dangling =>
      NotInQuote(Wanted(st)[0], e);
      ReplacePlain(q, tok, [], Wanted(st), Meant(st, e), tok);
      ReplaceNothing(q + tok, Wanted(st), Meant(st, e), tok);
      assert tok + [] == tok;
    case Plain(c, r) =>
      var x := PlainImage(c, before, "_");
      PlainShape(c, e, st);
      PlainEnd(q, c, e, st);
      PlainStage(q, x, Image(r, e, before, "_"), e, Wanted(st), Meant(st, e));
      ReplaceWildcards(q + x, r, e, st);
    case Escaped(c, r) =>
      EscapedStage(q, c, Image(r, e, before, "_"), e, Wanted(st)[0], Meant(st, e));
      EscapedEven(q, c, e);
      ReplaceWildcards(q + (tok + QuoteChar(c)), r, e, st);
  }

  // ---------------------------------------------------------------------------
  // Removing the escapes
  // ---------------------------------------------------------------------------

  lemma {:induction false} PassChar(c: char, y: string)
    requires c != BACKSLASH
    ensures Unescape([c] + y, QUOTED) == [c] + Unescape(y, QUOTED)
    ensures Unpaired([c] + y, QUOTED) == Unpaired(y, QUOTED)
  {
    hide Unescape, Unpaired, Removed, Index;
    var s := [c] + y;
    assert s[0] == c && s[1..] == y;
    CharStep(s, QUOTED);
  }

  /** A quoted character other than a backslash passes. */
  lemma {:induction false} PassQuoted(c: char, y: string)
    requires c != BACKSLASH
    ensures Unescape(QuoteChar(c) + y, QUOTED) == QuoteChar(c) + Unescape(y, QUOTED)
    ensures Unpaired(QuoteChar(c) + y, QUOTED) == Unpaired(y, QUOTED)
  {
    hide Unescape, Unpaired, Removed, Index;
    PassChar(c, y);
    if IsMeta(c) {
      var s := QuoteChar(c) + y;
      assert s[1] == c && s[1..] == [c] + y;
      CharStep(s, QUOTED);
      assert [BACKSLASH] + ([c] + Unescape(y, QUOTED)) == QuoteChar(c) + Unescape(y, QUOTED);
    }
  }

  lemma {:induction false} PassEscaped(c: char, y: string)
    ensures Unescape(QUOTED + QuoteChar(c) + y, QUOTED) == QuoteChar(c) + Unescape(y, QUOTED)
    ensures Unpaired(QUOTED + QuoteChar(c) + y, QUOTED) == Unpaired(y, QUOTED)
  {
    hide Unescape, Unpaired, Removed, Index;
    var s := QUOTED + QuoteChar(c) + y;
    assert QUOTED <= s && s[2..] == QuoteChar(c) + y;
    if c == BACKSLASH {
      assert QUOTED + QUOTED <= s && s[4..] == y;
      PairStep(s, QUOTED);
    } else {
      assert !(QUOTED + QUOTED <= s) by {
        assert c == if IsMeta(c) then s[3] else s[2];
        assert (QUOTED + QUOTED)[2] == BACKSLASH && (QUOTED + QUOTED)[3] == BACKSLASH;
      }
      SingleStep(s, QUOTED);
      PassQuoted(c, y);
    }
  }

  lemma {:induction false} PassPlain(c: char, y: string)
    requires c != BACKSLASH
    ensures Unescape(PlainImage(c, ".*", ".") + y, QUOTED) == PlainImage(c, ".*", ".") + Unescape(y, QUOTED)
    ensures Unpaired(PlainImage(c, ".*", ".") + y, QUOTED) == Unpaired(y, QUOTED)
  {
    hide Unescape, Unpaired, Removed, Index;
    if c == '%' {
      PassChar('*', y);
      PassChar('.', "*" + y);
      assert "." + ("*" + y) == ".*" + y;
      assert "." + ("*" + Unescape(y, QUOTED)) == ".*" + Unescape(y, QUOTED);
    } else if c == '_' {
      PassChar('.', y);
    } else {
      PassQuoted(c, y);
    }
  }

  lemma {:induction false} UnescapeImage(u: Units)
    requires NoPlain(u, BACKSLASH)
    ensures Unescape(Image(u, BACKSLASH, ".*", "."), QUOTED) == Regex(u)
    ensures Unpaired(Image(u, BACKSLASH, ".*", "."), QUOTED) == IsDangling(u)
  {
    QuotedBackslash();
    match u
    case End =>
    case Dangling =>
      assert QUOTED <= QUOTED && !(QUOTED + QUOTED <= QUOTED);
      SingleStep(QUOTED, QUOTED);
      assert QUOTED[2..] == [];
    case Plain(c, r) =>
      hide Unescape, Unpaired;
      PassPlain(c, Image(r, BACKSLASH, ".*", "."));
      UnescapeImage(r);
    case Escaped(c, r) =>
      hide Unescape, Unpaired;
      PassEscaped(c, Image(r, BACKSLASH, ".*", "."));
      UnescapeImage(r);
  }

  // ---------------------------------------------------------------------------
  // Reading the result
  // ---------------------------------------------------------------------------

  lemma {:induction false} NoLeadingStar(u: Units)
    ensures Regex(u) == [] || Regex(u)[0] != '*'
  {
  }

  lemma {:induction false} MetaIsPunctuation(c: char)
    requires IsMeta(c)
    ensures IsPunctuation(c)
  {
  }

  lemma {:induction false} ReadQuoted(c: char, y: string)
    ensures ReadRegex(QuoteChar(c) + y) == Then(Literal(c), ReadRegex(y))
  {
    var r := QuoteChar(c) + y;
    if IsMeta(c) {
      MetaIsPunctuation(c);
      assert r[0] == BACKSLASH && r[1] == c && r[2..] == y;
    } else {
      assert r[0] == c && r[1..] == y;
    }
  }

  /** The regular expression reads as the tokens of the pattern. */
  lemma {:induction false} RegexReads(u: Units)
    ensures ReadRegex(Regex(u)) == Some(Tokens(u))
  {
    match u
    case End =>
    case Dangling =>
    case Plain(c, r) =>
      RegexReads(r);
      NoLeadingStar(r);
      var s := Regex(u);
      if c == '%' {
        assert s[0] == '.' && s[1] == '*' && s[2..] == Regex(r);
      } else if c == '_' {
        assert s[0] == '.' && s[1..] == Regex(r);
        assert |s| > 1 ==> s[1] == Regex(r)[0];
      } else {
        ReadQuoted(c, Regex(r));
      }
    case Escaped(c, r) =>
      RegexReads(r);
      ReadQuoted(c, Regex(r));
  }

  lemma {:induction false} Pipeline(p: string)
    ensures var u := Parse(p, BACKSLASH);
            var a := Replace([], Quote(p), "%", ".*", QUOTED);
            var b := Replace([], a, "_", ".", QUOTED);
            Unescape(b, QUOTED) == Regex(u) && Unpaired(b, QUOTED) == IsDangling(u)
  {
    var u := Parse(p, BACKSLASH);
    QuotedBackslash();
    assert Even([], BACKSLASH);
    hide Replace, Run, Even, Unescape, Unpaired, AnyText, OneText;
    ParseNoPlain(p, BACKSLASH);
    QuoteIsImage(p, BACKSLASH);
    ReplaceWildcards([], u, BACKSLASH, Percents);
    ReplaceWildcards([], u, BACKSLASH, Underscores);
    UnescapeImage(u);
  }

  /**
   likeKey.Pattern for the default escape character, before it is anchored: an error exactly
   for a pattern that ends in an escape, and otherwise a regular expression that reads as the
   tokens of the pattern, so that it matches what LIKE matches.
   */
  method LikePattern(p: string) returns (r: Option<string>)
    ensures r.None? <==> EndsInEscape(p, BACKSLASH)
    ensures r.Some? ==> ReadRegex(r.value) == Some(Tokens(Parse(p, BACKSLASH)))
  {
    hide Replace, Unescape, Unpaired, Quote, ReadRegex;
    var pattern := Quote(p);
    pattern := ReplaceUnescaped(pattern, "%", ".*", QUOTED);
    pattern := ReplaceUnescaped(pattern, "_", ".", QUOTED);
    Pipeline(p);
    RegexReads(Parse(p, BACKSLASH));
    r := UnescapePattern(pattern, QUOTED, true);
  }
}
