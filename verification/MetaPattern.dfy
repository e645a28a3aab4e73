/**
 likeKey.Pattern for an escape character that is a metacharacter of regular expressions:
 exactly which patterns that end in an escape are found out, and so exactly which patterns
 the conversion is right about.
 */
module MetaPattern {
  import opened Values
  import opened LikeSpec
  import opened Escapes
  import opened LikeRegex
  import opened LikeFast
  import opened CustomPattern
  import opened MetaText
  import opened MetaReading

  /** How the rewriting of escapes stands to the units: in step, or with a stray backslash or a quoted escape character in hand. */
  datatype Alignment = Aligned | Stray | InToken

  /** A pattern that ends in an escape is found out. */
  predicate Detected(u: Units, e: char, st: Alignment) {
    match u
    case End => true
    case Dangling => st != InToken
    case Plain(c, r) => Detected(r, e, if st == Stray && c == BACKSLASH then Stray else Aligned)
    case Escaped(c, r) =>
      if c == BACKSLASH then Detected(r, e, if st == Stray then Aligned else Stray)
      else if c != e then Detected(r, e, Aligned)
      else if BeginsWithBackslash(r) then Detected(r.rest, e, Stray)
      else Detected(r, e, if st == Aligned then Aligned else InToken)
  }

  // ---------------------------------------------------------------------------
  // Patterns that end in an escape
  // ---------------------------------------------------------------------------

  /** A single dot in hand makes no difference if the dot is the escape character. */
  lemma {:induction false} LoneDot(u: Units, after: bool)
    requires NoPlain(u, '.') && IsDangling(u)
    ensures Custom(['.'] + Freed(u, '.', after), '.').None? <==> Custom(Freed(u, '.', after), '.').None?
    decreases u
  {
    var s, e := Freed(u, '.', after), '.';
    if u.Plain? && u.c == '%' {
      var y := "*" + Freed(u.rest, e, false);
      assert s == [e] + ([e] + y) && ([e] + ([e] + y))[1..] == [e] + y && ([e] + y)[1..] == y;
      hide Custom, Freed;
      CustomEscape(s, e);
      CustomEscape([e] + y, e);
      CustomEscape(y, e);
    } else if u.Plain? && u.c == '_' && BeginsWithBackslash(u.rest) && !after {
      var y := QUOTED + Freed(u.rest.rest, e, true);
      assert s == [e] + y && ([e] + y)[1..] == y;
      hide Custom, Freed;
      CustomEscape(s, e);
      CustomEscape(y, e);
    } else if u.Plain? && u.c == '_' {
      var y := Freed(u.rest, e, false);
      assert s == [e] + ([e] + y) && ([e] + ([e] + y))[1..] == [e] + y && ([e] + y)[1..] == y;
      hide Custom, Freed;
      CustomEscape(s, e);
      CustomEscape([e] + y, e);
      LoneDot(u.rest, false);
    } else {
      assert s[0] != '.';
      hide Custom, Freed;
      CustomEscape(s, e);
    }
  }

  lemma {:induction false} AlignedDetected(u: Units, e: char, after: bool)
    requires IsEscape(e) && NoPlain(u, e) && IsDangling(u)
    ensures Custom(Freed(u, e, after), e).None? <==> Detected(u, e, Aligned)
    decreases u, 0
  {
    match u
    case Dangling => EscapeQuote(e);
    case Plain(c, r) =>
      hide Custom, PlainImage, QuoteChar, IsMeta, AnyText, OneText;
      if EndsDoubled(c, e) && BeginsWithBackslash(r) && !(after && c == '_') {
        CustomDoubledWild(c, Freed(r.rest, e, true), e);
        AlignedDetected(r.rest, e, true);
      } else {
        CustomPlain(c, Freed(r, e, c == BACKSLASH), e);
        AlignedDetected(r, e, c == BACKSLASH);
      }
    case Escaped(c, r) =>
      hide Custom, QuoteChar, IsMeta;
      if c == BACKSLASH {
        var y := [BACKSLASH] + Freed(r, e, true);
        assert [BACKSLASH] + QUOTED + Freed(r, e, true) == QUOTED + y;
        CustomBackslash(y, e);
        StrayDetected(r, e);
      } else if c == e && BeginsWithBackslash(r) {
        CustomOpenBackslash(Freed(r.rest, e, true), e);
        StrayDetected(r.rest, e);
      } else {
        CustomToken(c, Freed(r, e, false), e);
        AlignedDetected(r, e, false);
      }
  }

  lemma {:induction false} StrayDetected(u: Units, e: char)
    requires IsEscape(e) && NoPlain(u, e) && IsDangling(u)
    ensures Custom([BACKSLASH] + Freed(u, e, true), e).None? <==> Detected(u, e, Stray)
    decreases u, 1
  {
    hide Custom, PlainImage, AnyText, OneText;
    match u
    case Dangling =>
      EscapeQuote(e);
      assert [BACKSLASH] + QuoteChar(e) == QUOTED + [e] && [e] + [] == [e];
      CustomBackslash([e], e);
      CustomEscape([], e);
    case Plain(c, r) =>
      if c == BACKSLASH {
        var y := Freed(r, e, true);
        BackslashText(u, e);
        assert [BACKSLASH] + (QUOTED + y) == QUOTED + ([BACKSLASH] + y);
        CustomBackslash([BACKSLASH] + y, e);
        StrayDetected(r, e);
      } else if EndsDoubled(c, e) && BeginsWithBackslash(r) && c == '%' {
        StrayDoubled(Freed(r.rest, e, true), e);
        AlignedDetected(r.rest, e, true);
      } else {
        if IsWild(c) { StrayWildDetected(c, r, e); } else { StrayPlainDetected(c, Freed(r, e, false), e); }
        AlignedDetected(r, e, false);
      }
    case Escaped(c, r) =>
      if c == BACKSLASH {
        var y := Freed(r, e, true);
        assert [BACKSLASH] + ([BACKSLASH] + QUOTED + y) == QUOTED + (QUOTED + y);
        CustomBackslash(QUOTED + y, e);
        CustomBackslash(y, e);
        AlignedDetected(r, e, true);
      } else if c == e && BeginsWithBackslash(r) {
        StrayOpen(Freed(r.rest, e, true), e);
        StrayDetected(r.rest, e);
      } else {
        StrayToken(c, Freed(r, e, false), e);
        if c == e { TokenDetected(r, e, false); } else { AlignedDetected(r, e, false); }
      }
  }

  lemma {:induction false} StrayDoubled(y: string, e: char)
    requires e == '*'
    ensures Custom([BACKSLASH] + (PlainImage('%', ".*", ".") + QUOTED + y), e).None? <==> Custom(y, e).None?
  {
    hide Custom;
    var s := [e] + (QUOTED + y);
    assert [BACKSLASH] + (".*" + QUOTED + y) == [BACKSLASH, '.'] + s;
    CustomPair('.', s, e);
    CustomLone(y, e);
  }

  lemma {:induction false} StrayWildDetected(c: char, r: Units, e: char)
    requires IsEscape(e) && IsWild(c) && NoPlain(r, e) && IsDangling(r)
    ensures var y := Freed(r, e, false);
            Custom([BACKSLASH] + (PlainImage(c, AnyText(e), OneText(e)) + y), e).None? <==> Custom(y, e).None?
  {
    hide Custom, Freed;
    var y := Freed(r, e, false);
    var z := if c == '%' then Doubled('*', e) + y else y;
    if c == '%' { CustomDoubled('*', y, e); }
    if e == '.' {
      EscapeQuote(e);
      assert [BACKSLASH] + (PlainImage(c, AnyText(e), OneText(e)) + y) == QuoteChar(e) + ([e] + z) && ([e] + z)[0] == e;
      hide QuoteChar, IsMeta, AnyText, OneText;
      CustomOpen([e] + z, e);
      if c == '%' { CustomEscape(z, e); } else { LoneDot(r, false); }
    } else {
      assert [BACKSLASH] + (PlainImage(c, AnyText(e), OneText(e)) + y) == [BACKSLASH, '.'] + z;
      CustomPair('.', z, e);
    }
  }

  lemma {:induction false} StrayPlainDetected(c: char, y: string, e: char)
    requires IsEscape(e) && c != e && c != BACKSLASH && !IsWild(c)
    ensures Custom([BACKSLASH] + (PlainImage(c, AnyText(e), OneText(e)) + y), e).None? <==> Custom(y, e).None?
  {
    hide Custom;
    if IsMeta(c) {
      assert [BACKSLASH] + ([BACKSLASH, c] + y) == QUOTED + ([c] + y);
      CustomBackslash([c] + y, e);
      CustomChar(c, y, e);
    } else {
      assert [BACKSLASH] + ([c] + y) == [BACKSLASH, c] + y;
      CustomPair(c, y, e);
    }
  }

  lemma {:induction false} StrayOpen(y: string, e: char)
    requires IsEscape(e)
    ensures Custom([BACKSLASH] + (QuoteChar(e) + [BACKSLASH] + QUOTED + y), e).None? <==> Custom([BACKSLASH] + y, e).None?
  {
    hide Custom;
    var z := [BACKSLASH] + y;
    assert [BACKSLASH] + (QuoteChar(e) + [BACKSLASH] + QUOTED + y) == QUOTED + ([e] + (QUOTED + z));
    CustomBackslash([e] + (QUOTED + z), e);
    CustomLone(z, e);
  }

  lemma {:induction false} StrayToken(c: char, y: string, e: char)
    requires IsEscape(e) && c != BACKSLASH
    ensures Custom([BACKSLASH] + (QuoteChar(e) + QuoteChar(c) + y), e).None?
       <==> Custom(if c == e then QuoteChar(e) + y else y, e).None?
  {
    hide Custom;
    var z := QuoteChar(c) + y;
    assert [BACKSLASH] + (QuoteChar(e) + QuoteChar(c) + y) == QUOTED + ([e] + z) && z[0] != e;
    CustomBackslash([e] + z, e);
    CustomEscape(z, e);
    if c != e { CustomQuoted(c, y, e); }
  }

  lemma {:induction false} TokenDetected(u: Units, e: char, after: bool)
    requires IsEscape(e) && NoPlain(u, e) && IsDangling(u)
    ensures Custom(QuoteChar(e) + Freed(u, e, after), e).None? <==> Detected(u, e, InToken)
    decreases u, 1
  {
    hide Custom;
    var s, tok := Freed(u, e, after), QuoteChar(e);
    EscapeQuote(e);
    match u
    case Dangling =>
      assert tok + tok == tok + tok + [];
      CustomToken(e, [], e);
      CustomNothing(e);
    case Plain(c, r) =>
      assert s != [] && !(tok <= s) by { PlainStart(u, e, after); }
      CustomOpen(s, e);
      AlignedDetected(u, e, after);
    case Escaped(c, r) =>
      if c == BACKSLASH {
        assert s[1] == BACKSLASH;
        CustomOpen(s, e);
        AlignedDetected(u, e, after);
      } else if c == e && BeginsWithBackslash(r) {
        var y := [BACKSLASH] + Freed(r.rest, e, true);
        assert tok + s == tok + tok + (QUOTED + y);
        CustomToken(e, QUOTED + y, e);
        CustomBackslash(y, e);
        StrayDetected(r.rest, e);
      } else {
        var y := Freed(r, e, false);
        assert tok + s == tok + tok + (QuoteChar(c) + y);
        CustomToken(e, QuoteChar(c) + y, e);
        if c == e {
          TokenDetected(r, e, false);
        } else {
          CustomQuoted(c, y, e);
          AlignedDetected(r, e, false);
        }
      }
  }

  lemma {:induction false} CustomNothing(e: char)
    ensures Custom([], e) == Some([])
  {
  }

  /** A plain character does not begin like a quoted escape character. */
  lemma {:induction false} PlainStart(u: Units, e: char, after: bool)
    requires IsEscape(e) && u.Plain? && u.c != e
    ensures var s := Freed(u, e, after); s != [] && !(QuoteChar(e) <= s)
  {
    var s := Freed(u, e, after);
    if IsWild(u.c) { assert s[0] == '.'; } else if IsMeta(u.c) { assert s[1] == u.c; } else { assert s[0] == u.c; }
  }

  // ---------------------------------------------------------------------------
  // The result
  // ---------------------------------------------------------------------------

  /**
   With a metacharacter as escape character, the conversion is right about a pattern that ends
   in an escape exactly if it finds that out, and about any other exactly if it is sound.
   */
  lemma {:induction false} MetaIsRightExactly(p: string, e: char)
    requires IsEscape(e)
    ensures IsRight(p, e) <==> if EndsInEscape(p, e) then Detected(Parse(p, e), e, Aligned) else Sound(Parse(p, e), e, false)
  {
    var u := Parse(p, e);
    hide Prepared, Custom, Unescape, ReadRegex, Sound, Detected, Freed, MetaRegex, Parse, Tokens;
    PreparedIsFreedText(p, e);
    if EndsInEscape(p, e) { AlignedDetected(u, e, false); } else { SoundExactly(u, e, false); }
  }

  /** An escaped backslash at the end is an error. */
  lemma {:induction false} MetacharacterFails(e: char)
    requires IsEscape(e)
    ensures !EndsInEscape([e, BACKSLASH], e) && PatternOf([e, BACKSLASH], e) == None
  {
    var p := [e, BACKSLASH];
    assert p[2..] == [] && Parse(p, e) == Escaped(BACKSLASH, End);
    var s := [BACKSLASH] + QUOTED;
    assert Freed(Parse(p, e), e, false) == s by { assert Freed(End, e, true) == []; }
    assert s == QUOTED + [BACKSLASH];
    hide Prepared, Custom, Freed;
    PreparedIsFreedText(p, e);
    CustomBackslash([BACKSLASH], e);
    StrayEnd(e);
  }

  lemma {:induction false} ParseEscaped(c: char, p: string, e: char)
    ensures Parse([e, c] + p, e) == Escaped(c, Parse(p, e))
  {
    assert ([e, c] + p)[2..] == p;
  }

  /** An escaped w becomes the class of letters, digits and underscores. */
  lemma {:induction false} EscapedLetter(e: char)
    requires IsEscape(e)
    ensures PatternOf([e, 'w'], e) == Some([BACKSLASH, 'w']) && Tokens(Parse([e, 'w'], e)) == [Literal('w')]
    ensures !IsRight([e, 'w'], e)
  {
    var p := [e, 'w'];
    var u := Escaped('w', End);
    ParseEscaped('w', [], e);
    assert [e, 'w'] + [] == p && Parse(p, e) == u && Tokens(u) == [Literal('w')] + Tokens(End);
    assert Freed(u, e, false) == QuoteChar(e) + QuoteChar('w') + Freed(End, e, false);
    assert ReadRegex([BACKSLASH, 'w']) == None;
    var x := [BACKSLASH] + QuoteChar('w');
    assert x == [BACKSLASH, 'w'] == Uncovered('w', e) && x + [] == x;
    hide Prepared, Custom, Unescape, Freed, ReadRegex, Parse, Tokens;
    PreparedIsFreedText(p, e);
    CustomToken('w', [], e);
    CustomNothing(e);
    PassToken('w', [], e);
    UnescapeNothing();
  }

  lemma {:induction false} UnescapeNothing()
    ensures Unescape([], QUOTED) == []
  {
  }

  lemma {:induction false} NotDetected(e: char)
    requires e != BACKSLASH
    ensures var u := Escaped(BACKSLASH, Escaped(e, Dangling)); IsDangling(u) && !Detected(u, e, Aligned)
  {
    var u := Escaped(e, Dangling);
    assert IsDangling(u) && !Detected(u, e, Stray);
  }

  /** An escape that escapes nothing goes unnoticed behind an escaped backslash and an escaped escape character. */
  lemma {:induction false} UndetectedEscape(e: char)
    requires IsEscape(e)
    ensures EndsInEscape([e, BACKSLASH, e, e, e], e) && PatternOf([e, BACKSLASH, e, e, e], e).Some?
  {
    var p := [e, BACKSLASH, e, e, e];
    assert p == [e, BACKSLASH] + [e, e, e] && [e, e, e] == [e, e] + [e] && Parse([e], e) == Dangling;
    hide PatternOf, Parse, Detected, Sound, IsDangling;
    ParseEscaped(BACKSLASH, [e, e, e], e);
    ParseEscaped(e, [e], e);
    NotDetected(e);
    MetaIsRightExactly(p, e);
  }

  /** So the conversion is right about every pattern exactly for the other escape characters. NUL is no escape character. */
  lemma {:induction false} RightExactly(e: char)
    requires e != BACKSLASH && e != '\0'
    ensures (forall p :: IsRight(p, e)) <==> !IsMeta(e)
  {
    hide IsRight;
    if IsMeta(e) {
      EscapedLetter(e);
    } else {
      forall p ensures IsRight(p, e) { OrdinaryIsRight(p, e); }
    }
  }
}
