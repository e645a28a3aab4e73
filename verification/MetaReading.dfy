/**
 What becomes of a pattern whose escape character is a metacharacter of regular expressions.
 The conversion quotes the escape character like any other, and then the quoting gets in its
 way: exactly which patterns that do not end in an escape read as what they mean.
 */
module MetaReading {
  import opened Values
  import opened LikeSpec
  import opened Escapes
  import opened LikeRegex
  import opened LikeFast
  import opened CustomPattern
  import opened MetaText

  // ---------------------------------------------------------------------------
  // The patterns that come out right
  // ---------------------------------------------------------------------------

  /** What is written for an escaped character other than a backslash. */
  function Uncovered(c: char, e: char): string {
    if c == e then QuoteChar(e) else if IsMeta(c) then [c] else [BACKSLASH, c]
  }

  /**
   The regular expression that is written. An escaped backslash leaves a stray one, which
   moves behind the plain backslashes that follow.
   */
  function MetaRegex(u: Units, e: char, stray: bool): string {
    match u
    case End => []
    case Dangling => []
    case Plain(c, r) =>
      if c == BACKSLASH then QUOTED + MetaRegex(r, e, stray)
      else (if stray then [BACKSLASH, c] else PlainImage(c, ".*", ".")) + MetaRegex(r, e, false)
    case Escaped(c, r) =>
      if c == BACKSLASH then QUOTED + MetaRegex(r, e, true) else Uncovered(c, e) + MetaRegex(r, e, false)
  }

  /** What is written for an escaped c is read as c, if the text y follows. */
  predicate IsHarmless(c: char, e: char, y: string) {
    c == e || (if IsMeta(c) then StandsForItself([c] + y) else IsPunctuation(c))
  }

  /**
   The units of a pattern that come out right; after tells that a backslash is before them. No
   harmful character is escaped, no plain backslash follows an escaped escape character or a
   wildcard that ends in one, and the stray backslash of an escaped one is put to use.
   */
  predicate Sound(u: Units, e: char, after: bool) {
    match u
    case End => true
    case Dangling => true
    case Plain(c, r) =>
      && Sound(r, e, c == BACKSLASH)
      && (EndsDoubled(c, e) && BeginsWithBackslash(r) ==> after && c == '_')
    case Escaped(c, r) =>
      if c == BACKSLASH then Absorbed(r, e)
      else IsHarmless(c, e, MetaRegex(r, e, false)) && (c == e ==> !BeginsWithBackslash(r)) && Sound(r, e, false)
  }

  /** After plain backslashes comes a character that may have a backslash before it. */
  predicate Absorbed(u: Units, e: char) {
    && u.Plain?
    && if u.c == BACKSLASH then Absorbed(u.rest, e)
       else !IsMeta(u.c) && !IsWild(u.c) && IsPunctuation(u.c) && Sound(u.rest, e, false)
  }

  // ---------------------------------------------------------------------------
  // Rewriting escapes, and reading what comes out
  // ---------------------------------------------------------------------------

  /** A backslash of the pattern, after rewriting. */
  const FOUR: string := QUOTED + QUOTED

  /** What is rewritten to o reads as these tokens. */
  predicate Reads(o: Option<string>, ts: seq<Token>) {
    o.Some? && ReadRegex(Unescape(o.value, QUOTED)) == Some(ts)
  }

  /** What is rewritten to o becomes the regular expression r. */
  predicate Spells(o: Option<string>, r: string) { o.Some? && Unescape(o.value, QUOTED) == r }

  lemma {:induction false} CustomBackslash(y: string, e: char)
    requires e != BACKSLASH
    ensures Custom(QUOTED + y, e) == Put(FOUR, Custom(y, e))
  {
    hide Custom;
    CustomPair(BACKSLASH, y, e);
  }

  /** A quoted escape character that another does not follow. */
  lemma {:induction false} CustomOpen(y: string, e: char)
    requires IsEscape(e) && y != [] && !(QuoteChar(e) <= y)
    ensures Custom(QuoteChar(e) + y, e) == Put([BACKSLASH], Custom(y, e))
  {
    EscapeQuote(e);
    var s := QuoteChar(e) + y;
    assert s[2..] == y;
    assert |s| >= 4 ==> s[2] == y[0] && s[3] == y[1];
  }

  lemma {:induction false} CustomToken(c: char, y: string, e: char)
    requires IsEscape(e) && c != BACKSLASH
    ensures Custom(QuoteChar(e) + QuoteChar(c) + y, e)
         == Put(if c == e then QuoteChar(e) else [BACKSLASH] + QuoteChar(c), Custom(y, e))
  {
    var s := QuoteChar(e) + QuoteChar(c) + y;
    if c == e {
      assert s[4..] == y;
    } else {
      var z := QuoteChar(c) + y;
      assert s == QuoteChar(e) + z;
      assert !(QuoteChar(e) <= z);
      hide Custom;
      CustomOpen(z, e);
      CustomQuoted(c, y, e);
      PutTwice([BACKSLASH], QuoteChar(c), Custom(y, e));
    }
  }

  lemma {:induction false} ThenExactly(t: Token, o: Option<seq<Token>>, ts: seq<Token>)
    ensures Then(t, o) == Some([t] + ts) <==> o == Some(ts)
  {
    if Then(t, o) == Some([t] + ts) { assert ([t] + o.value)[1..] == ([t] + ts)[1..]; }
  }

  lemma {:induction false} ThenOther(t: Token, o: Option<seq<Token>>, t': Token, ts: seq<Token>)
    requires t != t'
    ensures Then(t, o) != Some([t'] + ts) && Then(t, o) != Some([])
  {
    if o.Some? { assert ([t] + o.value)[0] == t && ([t'] + ts)[0] == t'; }
  }

  lemma {:induction false} BackslashReads(o: Option<string>, t: Token, ts: seq<Token>)
    ensures Reads(Put(FOUR, o), [t] + ts) <==> t == Literal(BACKSLASH) && Reads(o, ts)
    ensures !Reads(Put(FOUR, o), [])
    ensures forall r :: Spells(o, r) ==> Spells(Put(FOUR, o), QUOTED + r)
  {
    if o.Some? {
      hide Unescape, ReadRegex;
      QuotedBackslash();
      PassEscaped(BACKSLASH, o.value);
      var w := Unescape(o.value, QUOTED);
      ReadQuoted(BACKSLASH, w);
      ThenExactly(t, ReadRegex(w), ts);
      ThenOther(Literal(BACKSLASH), ReadRegex(w), AnyChar, []);
      if t != Literal(BACKSLASH) { ThenOther(Literal(BACKSLASH), ReadRegex(w), t, ts); }
    }
  }

  lemma {:induction false} ReadDot(y: string, t: Token, ts: seq<Token>)
    ensures t.Literal? ==> ReadRegex(['.'] + y) != Some([t] + ts)
    ensures ReadRegex(['.'] + y) == Some([AnyChar] + ts) <==> ReadRegex(y) == Some(ts)
    ensures y != [] && y[0] == BACKSLASH ==> ReadRegex(['.'] + y) != Some([AnyString] + ts)
  {
    var r := ['.'] + y;
    assert r[1..] == y;
    if y != [] && y[0] == '*' {
      ThenOther(AnyString, ReadRegex(r[2..]), AnyChar, ts);
      if t.Literal? { ThenOther(AnyString, ReadRegex(r[2..]), t, ts); }
    } else {
      ThenExactly(AnyChar, ReadRegex(y), ts);
      ThenOther(AnyChar, ReadRegex(y), AnyString, ts);
      if t.Literal? { ThenOther(AnyChar, ReadRegex(y), t, ts); }
    }
  }

  lemma {:induction false} PlainReads(c: char, o: Option<string>, ts: seq<Token>)
    requires c != BACKSLASH
    ensures Reads(Put(PlainImage(c, ".*", "."), o), [PlainToken(c)] + ts) <==> Reads(o, ts)
    ensures forall r :: Spells(o, r) ==> Spells(Put(PlainImage(c, ".*", "."), o), PlainImage(c, ".*", ".") + r)
  {
    if o.Some? {
      var w := Unescape(o.value, QUOTED);
      if c == '%' {
        assert (".*" + w)[2..] == w;
        assert ReadRegex(".*" + w) == Then(AnyString, ReadRegex(w));
      }
      hide Unescape, ReadRegex;
      PassPlain(c, o.value);
      ThenExactly(PlainToken(c), ReadRegex(w), ts);
      if c == '_' { ReadDot(w, AnyChar, ts); } else if c != '%' { ReadQuoted(c, w); }
    }
  }

  /** One backslash stays, two go. */
  lemma {:induction false} PassToken(c: char, y: string, e: char)
    requires IsEscape(e) && c != BACKSLASH
    ensures Unescape((if c == e then QuoteChar(e) else [BACKSLASH] + QuoteChar(c)) + y, QUOTED)
         == Uncovered(c, e) + Unescape(y, QUOTED)
  {
    hide Unescape;
    if c == e {
      PassQuoted(e, y);
    } else if IsMeta(c) {
      var s := QUOTED + [c] + y;
      assert [BACKSLASH] + QuoteChar(c) + y == s && QUOTED <= s && s[2..] == [c] + y && s[2] != BACKSLASH;
      SingleStep(s, QUOTED);
      PassChar(c, y);
    } else {
      var s := [BACKSLASH, c] + y;
      assert [BACKSLASH] + QuoteChar(c) + y == s && s[1] == c && s[1..] == [c] + y;
      CharStep(s, QUOTED);
      PassChar(c, y);
      assert [BACKSLASH] + ([c] + Unescape(y, QUOTED)) == [BACKSLASH, c] + Unescape(y, QUOTED);
    }
  }

  lemma {:induction false} ReadUncovered(c: char, y: string, e: char, ts: seq<Token>)
    requires IsEscape(e) && c != BACKSLASH
    ensures ReadRegex(Uncovered(c, e) + y) == Some([Literal(c)] + ts) <==> IsHarmless(c, e, y) && ReadRegex(y) == Some(ts)
  {
    var r := Uncovered(c, e) + y;
    ThenExactly(Literal(c), ReadRegex(y), ts);
    if c == e {
      ReadQuoted(e, y);
    } else if IsMeta(c) {
      assert r == [c] + y && r[0] == c && r[1..] == y;
      if c == '.' { ReadDot(y, Literal(c), ts); }
    } else {
      assert r[0] == BACKSLASH && r[1] == c && r[2..] == y;
    }
  }

  lemma {:induction false} EscapedReads(c: char, o: Option<string>, e: char, ts: seq<Token>)
    requires IsEscape(e) && c != BACKSLASH
    ensures var x := if c == e then QuoteChar(e) else [BACKSLASH] + QuoteChar(c);
            && (Reads(Put(x, o), [Literal(c)] + ts) <==> o.Some? && IsHarmless(c, e, Unescape(o.value, QUOTED)) && Reads(o, ts))
            && forall r :: Spells(o, r) ==> Spells(Put(x, o), Uncovered(c, e) + r)
  {
    if o.Some? {
      hide Unescape, ReadRegex, IsHarmless, Uncovered;
      PassToken(c, o.value, e);
      ReadUncovered(c, Unescape(o.value, QUOTED), e, ts);
    }
  }

  // ---------------------------------------------------------------------------
  // Patterns that do not end in an escape
  // ---------------------------------------------------------------------------

  function Fours(n: nat): string { if n == 0 then [] else FOUR + Fours(n - 1) }

  lemma {:induction false} FoursCommute(n: nat)
    ensures Fours(n) + FOUR == FOUR + Fours(n) == Fours(n + 1)
  {
    if n > 0 {
      FoursCommute(n - 1);
      assert FOUR + Fours(n - 1) + FOUR == FOUR + (Fours(n - 1) + FOUR);
    } else {
      assert [] + FOUR == FOUR + [];
    }
  }

  function StrayPart(stray: bool): string { if stray then [BACKSLASH] else [] }

  /** Once there is a backslash too many, the tokens never meet again. */
  lemma {:induction false} AheadFails(u: Units, e: char, stray: bool, n: nat)
    requires IsEscape(e) && NoPlain(u, e) && !IsDangling(u) && n > 0
    ensures !Reads(Put(Fours(n), Custom(StrayPart(stray) + Freed(u, e, true), e)), Tokens(u))
    decreases u
  {
    hide Custom, Reads, Freed, IsMeta, StrayPart;
    var o := Custom(StrayPart(stray) + Freed(u, e, true), e);
    PutTwice(FOUR, Fours(n - 1), o);
    var rest := Put(Fours(n - 1), o);
    assert Put(Fours(n), o) == Put(FOUR, rest);
    match u
    case End => BackslashReads(rest, AnyChar, []);
    case Plain(c, r) =>
      BackslashReads(rest, PlainToken(c), Tokens(r));
      if c == BACKSLASH {
        PlainAhead(u, e, stray, n);
        AheadFails(r, e, stray, n);
      }
    case Escaped(c, r) =>
      BackslashReads(rest, Literal(c), Tokens(r));
      if c == BACKSLASH {
        EscapedAhead(u, e, stray, n);
        AheadFails(r, e, !stray, if stray then n + 1 else n);
      }
  }

  lemma {:induction false} PlainAhead(u: Units, e: char, stray: bool, n: nat)
    requires IsEscape(e) && n > 0 && BeginsWithBackslash(u)
    ensures Put(Fours(n - 1), Custom(StrayPart(stray) + Freed(u, e, true), e))
         == Put(Fours(n), Custom(StrayPart(stray) + Freed(u.rest, e, true), e))
  {
    hide Custom, Freed, IsMeta;
    var b, y := StrayPart(stray), Freed(u.rest, e, true);
    BackslashText(u, e);
    assert b + (QUOTED + y) == QUOTED + (b + y);
    AheadStep(b + y, n, e);
  }

  lemma {:induction false} StrayShift(y: string)
    ensures var x := [BACKSLASH] + QUOTED + y;
            && StrayPart(true) + x == QUOTED + (QUOTED + y) && StrayPart(false) + y == y
            && StrayPart(false) + x == x == QUOTED + ([BACKSLASH] + y) && StrayPart(true) + y == [BACKSLASH] + y
  {
  }

  lemma {:induction false} EscapedAhead(u: Units, e: char, stray: bool, n: nat)
    requires IsEscape(e) && n > 0 && u.Escaped? && u.c == BACKSLASH
    ensures Put(Fours(n - 1), Custom(StrayPart(stray) + Freed(u, e, true), e))
         == Put(Fours(if stray then n + 1 else n), Custom(StrayPart(!stray) + Freed(u.rest, e, true), e))
  {
    hide Custom, Freed, IsMeta, Fours, Put, StrayPart;
    var y := Freed(u.rest, e, true);
    EscapedBackslashText(u, e);
    StrayShift(y);
    if stray {
      AheadStep(QUOTED + y, n, e);
      AheadStep(y, n + 1, e);
    } else {
      AheadStep([BACKSLASH] + y, n, e);
    }
  }

  lemma {:induction false} AheadStep(y: string, n: nat, e: char)
    requires IsEscape(e) && n > 0
    ensures Put(Fours(n - 1), Custom(QUOTED + y, e)) == Put(Fours(n), Custom(y, e))
  {
    hide Custom;
    CustomBackslash(y, e);
    PutTwice(Fours(n - 1), FOUR, Custom(y, e));
    FoursCommute(n - 1);
  }

  lemma {:induction false} EscapedBackslashText(u: Units, e: char)
    requires u.Escaped? && u.c == BACKSLASH
    ensures forall after :: Freed(u, e, after) == [BACKSLASH] + QUOTED + Freed(u.rest, e, true)
  {
  }

  /** Behind a stray backslash a wildcard is a literal, or no regular expression. */
  lemma {:induction false} StrayWildcard(u: Units, e: char)
    requires IsEscape(e) && u.Plain? && IsWild(u.c)
    ensures !Reads(Custom([BACKSLASH] + Freed(u, e, true), e), Tokens(u))
  {
    EscapeQuote(e);
    var s := Freed(u, e, true);
    assert s[0] == '.' && (e == '.' ==> s[1] == '.');
    hide Custom, Reads, Freed, QuoteChar, IsMeta;
    if e != '.' {
      var y := s[1..];
      assert [BACKSLASH] + s == [BACKSLASH, '.'] + y;
      CustomPair('.', y, e);
      PutTwice([BACKSLASH], ['.'], Custom(y, e));
      assert [BACKSLASH] + ['.'] == [BACKSLASH, '.'];
      StrayReads(['.'], Custom(y, e), PlainToken(u.c), Tokens(u.rest));
    } else {
      var z := s[2..];
      assert [BACKSLASH] + s == QuoteChar(e) + (['.'] + z) && (['.'] + z)[0] != BACKSLASH;
      CustomOpen(['.'] + z, e);
      CustomEscape(z, e);
      StrayReads(['.'], if z == [] then None else Custom(z[1..], e), PlainToken(u.c), Tokens(u.rest));
      StrayReads(QUOTED, Custom(z, e), PlainToken(u.c), Tokens(u.rest));
      NoneReads(Tokens(u));
    }
  }

  lemma {:induction false} NoneReads(ts: seq<Token>)
    ensures !Reads(Put([BACKSLASH], None), ts) && !Reads(None, ts)
  {
  }

  lemma {:induction false} StrayReads(x: string, o: Option<string>, t: Token, ts: seq<Token>)
    requires (x == ['.'] || x == QUOTED) && !t.Literal?
    ensures !Reads(Put([BACKSLASH], Put(x, o)), [t] + ts)
  {
    if o.Some? {
      StrayStart(x, o.value);
      var r := Unescape([BACKSLASH] + (x + o.value), QUOTED);
      hide Unescape;
      if |r| > 1 { ThenOther(Literal(r[1]), ReadRegex(r[2..]), t, ts); }
    }
  }

  lemma {:induction false} StrayStart(x: string, z: string)
    requires x == ['.'] || x == QUOTED
    ensures var r := Unescape([BACKSLASH] + (x + z), QUOTED); r != [] && r[0] == BACKSLASH
  {
    var s := [BACKSLASH] + (x + z);
    if x == ['.'] {
      assert s[1] == '.';
    } else {
      assert QUOTED <= s && s[2..] == [BACKSLASH] + z;
      if z != [] && z[0] == BACKSLASH {
        assert QUOTED + QUOTED <= s;
      } else {
        assert !(QUOTED <= s[2..]) && !(QUOTED + QUOTED <= s) by { assert |s| > 3 ==> s[3] != BACKSLASH; }
      }
    }
  }

  /** Exactly the sound patterns read as what they mean. */
  lemma {:induction false} SoundExactly(u: Units, e: char, after: bool)
    requires IsEscape(e) && NoPlain(u, e) && !IsDangling(u)
    ensures var o := Custom(Freed(u, e, after), e);
            && (Reads(o, Tokens(u)) <==> Sound(u, e, after))
            && (Sound(u, e, after) ==> Spells(o, MetaRegex(u, e, false)))
    decreases u, 1
  {
    match u
    case End =>
    case Plain(c, r) =>
      hide Custom, Reads, Spells, PlainImage, QuoteChar, IsMeta, AnyText, OneText;
      if EndsDoubled(c, e) && BeginsWithBackslash(r) && !(after && c == '_') {
        DoubledFails(c, Freed(r.rest, e, true), e, Tokens(r));
      } else {
        SoundExactly(r, e, c == BACKSLASH);
        QuotedBackslash();
        CustomPlain(c, Freed(r, e, c == BACKSLASH), e);
        var o := Custom(Freed(r, e, c == BACKSLASH), e);
        if c == BACKSLASH { BackslashReads(o, Literal(c), Tokens(r)); } else { PlainReads(c, o, Tokens(r)); }
      }
    case Escaped(_, _) => EscapedSoundExactly(u, e, after);
  }

  lemma {:induction false} EscapedSoundExactly(u: Units, e: char, after: bool)
    requires IsEscape(e) && NoPlain(u, e) && !IsDangling(u) && u.Escaped?
    ensures var o := Custom(Freed(u, e, after), e);
            && (Reads(o, Tokens(u)) <==> Sound(u, e, after))
            && (Sound(u, e, after) ==> Spells(o, MetaRegex(u, e, false)))
    decreases u, 0
  {
    hide Custom, Reads, PlainImage, QuoteChar, IsMeta, AnyText, OneText, IsHarmless, Uncovered;
    var c, r := u.c, u.rest;
    if c == BACKSLASH {
      var y := Freed(r, e, true);
      StrayShift(y);
      CustomBackslash([BACKSLASH] + y, e);
      AbsorbedExactly(r, e);
      BackslashReads(Custom([BACKSLASH] + y, e), Literal(c), Tokens(r));
    } else if c == e && BeginsWithBackslash(r) {
      var y := Freed(r.rest, e, true);
      CustomOpenBackslash(y, e);
      BackslashReads(Put([BACKSLASH], Custom([BACKSLASH] + y, e)), Literal(e), Tokens(r));
    } else {
      SoundExactly(r, e, false);
      CustomToken(c, Freed(r, e, false), e);
      EscapedReads(c, Custom(Freed(r, e, false), e), e, Tokens(r));
    }
  }

  /** An escape character alone before a quoted backslash. */
  lemma {:induction false} CustomLone(y: string, e: char)
    requires e != BACKSLASH
    ensures Custom([e] + (QUOTED + y), e) == Put(FOUR, Put(QUOTED, Custom(y, e)))
  {
    hide Custom;
    CustomEscape(QUOTED + y, e);
    CustomBackslash(y, e);
    PutTwice(QUOTED, FOUR, Custom(y, e));
    PutTwice(FOUR, QUOTED, Custom(y, e));
    assert QUOTED + FOUR == FOUR + QUOTED;
  }

  lemma {:induction false} CustomDoubledWild(c: char, y: string, e: char)
    requires IsEscape(e) && EndsDoubled(c, e)
    ensures var o := Put(FOUR, Put(QUOTED, Custom(y, e)));
            Custom(PlainImage(c, ".*", ".") + QUOTED + y, e) == if c == '_' then o else Put(['.'], o)
  {
    hide Custom;
    var s := [e] + (QUOTED + y);
    CustomLone(y, e);
    if c == '_' {
      assert "." + QUOTED + y == s;
    } else {
      assert ".*" + QUOTED + y == ['.'] + s;
      CustomChar('.', s, e);
    }
  }

  lemma {:induction false} DoubledFails(c: char, y: string, e: char, ts: seq<Token>)
    requires IsEscape(e) && EndsDoubled(c, e)
    ensures !Reads(Custom(PlainImage(c, ".*", ".") + QUOTED + y, e), [PlainToken(c)] + ts)
  {
    hide Custom, Reads;
    var o := Put(QUOTED, Custom(y, e));
    CustomDoubledWild(c, y, e);
    if c == '_' { BackslashReads(o, AnyChar, ts); } else { DotReads(o, ts); }
  }

  lemma {:induction false} DotReads(o: Option<string>, ts: seq<Token>)
    ensures !Reads(Put(['.'], Put(FOUR, o)), [AnyString] + ts)
  {
    if o.Some? {
      hide Unescape;
      QuotedBackslash();
      PassEscaped(BACKSLASH, o.value);
      PassChar('.', FOUR + o.value);
      ReadDot(QUOTED + Unescape(o.value, QUOTED), AnyString, ts);
    }
  }

  /** A quoted escape character before a plain backslash, and the stray one behind it. */
  lemma {:induction false} CustomOpenBackslash(y: string, e: char)
    requires IsEscape(e)
    ensures Custom(QuoteChar(e) + [BACKSLASH] + QUOTED + y, e) == Put(FOUR, Put([BACKSLASH], Custom([BACKSLASH] + y, e)))
  {
    EscapeQuote(e);
    hide Custom, QuoteChar, IsMeta;
    var z := [BACKSLASH] + y;
    var s := QUOTED + z;
    assert QuoteChar(e) + [BACKSLASH] + QUOTED + y == QuoteChar(e) + s;
    assert s[1] == BACKSLASH;
    CustomOpen(s, e);
    CustomBackslash(z, e);
    PutTwice([BACKSLASH], FOUR, Custom(z, e));
    PutTwice(FOUR, [BACKSLASH], Custom(z, e));
    assert [BACKSLASH] + FOUR == FOUR + [BACKSLASH];
  }

  /** The same behind a stray backslash. */
  lemma {:induction false} AbsorbedExactly(u: Units, e: char)
    requires IsEscape(e) && NoPlain(u, e) && !IsDangling(u)
    ensures var o := Custom([BACKSLASH] + Freed(u, e, true), e);
            && (Reads(o, Tokens(u)) <==> Absorbed(u, e))
            && (Absorbed(u, e) ==> Spells(o, MetaRegex(u, e, true)))
    decreases u, 1
  {
    hide Custom, Reads, Spells, AnyText, OneText;
    match u
    case End =>
      StrayEnd(e);
      assert [BACKSLASH] + [] == [BACKSLASH];
      NoneReads([]);
    case Plain(c, r) =>
      if c == BACKSLASH {
        var y := Freed(r, e, true);
        BackslashText(u, e);
        assert [BACKSLASH] + (QUOTED + y) == QUOTED + ([BACKSLASH] + y);
        CustomBackslash([BACKSLASH] + y, e);
        AbsorbedExactly(r, e);
        BackslashReads(Custom([BACKSLASH] + y, e), Literal(c), Tokens(r));
      } else if IsWild(c) {
        StrayWildcard(u, e);
      } else {
        SoundExactly(r, e, false);
        StrayPlainReads(c, Freed(r, e, false), e, Tokens(r));
      }
    case Escaped(c, r) =>
      if c == BACKSLASH {
        var y := Freed(r, e, true);
        StrayShift(y);
        CustomBackslash(QUOTED + y, e);
        CustomBackslash(y, e);
        BackslashReads(Put(FOUR, Custom(y, e)), Literal(c), Tokens(r));
        assert Fours(1) == FOUR + Fours(0) == FOUR;
        AheadFails(r, e, false, 1);
      } else {
        StrayEscaped(u, e);
      }
  }

  lemma {:induction false} StrayEnd(e: char)
    requires e != BACKSLASH
    ensures Custom([BACKSLASH], e) == None
  {
  }

  lemma {:induction false} StrayPlainReads(c: char, y: string, e: char, ts: seq<Token>)
    requires IsEscape(e) && c != e && c != BACKSLASH && !IsWild(c)
    ensures var o, s := Custom(y, e), Custom([BACKSLASH] + (PlainImage(c, AnyText(e), OneText(e)) + y), e);
            && (Reads(s, [PlainToken(c)] + ts) <==> !IsMeta(c) && IsPunctuation(c) && Reads(o, ts))
            && forall r :: !IsMeta(c) && Spells(o, r) ==> Spells(s, [BACKSLASH, c] + r)
  {
    hide Custom, Reads, Spells;
    var o := Custom(y, e);
    if IsMeta(c) {
      assert [BACKSLASH] + ([BACKSLASH, c] + y) == QUOTED + ([c] + y);
      CustomBackslash([c] + y, e);
      BackslashReads(Custom([c] + y, e), Literal(c), ts);
    } else {
      assert [BACKSLASH] + ([c] + y) == [BACKSLASH, c] + y && [BACKSLASH] + QuoteChar(c) == [BACKSLASH, c];
      CustomPair(c, y, e);
      EscapedReads(c, o, e, ts);
      ReadsSome(o, ts);
    }
  }

  lemma {:induction false} ReadsSome(o: Option<string>, ts: seq<Token>)
    ensures Reads(o, ts) ==> o.Some?
  {
  }

  lemma {:induction false} StrayEscaped(u: Units, e: char)
    requires IsEscape(e) && u.Escaped? && u.c != BACKSLASH
    ensures !Reads(Custom([BACKSLASH] + Freed(u, e, true), e), Tokens(u))
  {
    EscapeQuote(e);
    var s := Freed(u, e, true);
    assert s[0] == BACKSLASH && s[1] == e;
    hide Custom, Reads, Freed, QuoteChar, IsMeta;
    assert [BACKSLASH] + s == QUOTED + s[1..];
    CustomBackslash(s[1..], e);
    BackslashReads(Custom(s[1..], e), Literal(u.c), Tokens(u.rest));
  }
}
