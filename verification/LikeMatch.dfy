/** The LIKE operator: the empty string by itself, then the fast path, then the regular expression. */
module LikeMatch {
  import opened Values
  import opened LikeSpec
  import opened LikeRegex
  import opened LikeFast
  import opened CustomPattern
  import opened MetaPattern
  import opened MetaReading

  /** Nothing but % that are not escape characters. */
  predicate AllPercent(p: string, e: char) { forall i | 0 <= i < |p| :: p[i] == '%' && e != '%' }

  /** The empty string matches a pattern exactly if there is nothing but the wildcard % in it. */
  lemma {:induction false} LikeEmpty(p: string, e: char)
    requires !EndsInEscape(p, e)
    ensures Like(p, e, []) <==> AllPercent(p, e)
  {
    if p != [] && p[0] == '%' && e != '%' {
      var ts := Tokens(Parse(p, e));
      assert ts[1..] == Tokens(Parse(p[1..], e));
      LikeEmpty(p[1..], e);
      assert AllPercent(p, e) <==> AllPercent(p[1..], e) by {
        assert forall i | 0 < i < |p| :: p[i] == p[1..][i - 1];
      }
    }
  }

  /** The string begins or ends with U+FFFD, and a closure decodes it there. */
  predicate IsRejected(p: string, e: char, s: string) {
    FastKind(p, e).Some? && Undecodable(FastKind(p, e).value, s)
  }

  /**
   What LIKE answers; None is an error. The empty string is answered before the pattern is
   looked at. For any other string it is an error exactly if the pattern ends in an escape or
   a closure rejects the string, and otherwise the answer of the standard.
   */
  ghost predicate AnswersLike(s: string, p: string, e: char, r: Option<bool>) {
    if s == [] then r == Some(AllPercent(p, e)) && (!EndsInEscape(p, e) ==> r == Some(Like(p, e, s)))
    else r == if EndsInEscape(p, e) || IsRejected(p, e, s) then None else Some(Like(p, e, s))
  }

  /** The replacement character alone matches _, and is an error. */
  lemma {:induction false} ReplacementIsRejected()
    ensures Like("_", BACKSLASH, [RUNE_ERROR]) && !EndsInEscape("_", BACKSLASH) && IsRejected("_", BACKSLASH, [RUNE_ERROR])
  {
    SingleChar("_", BACKSLASH);
    MatchAnyChar([], [RUNE_ERROR]);
    assert [AnyChar] + [] == [AnyChar] && [RUNE_ERROR][1..] == [];
  }

  /** The special case for the empty string. */
  method MatchEmpty(p: string, e: char) returns (r: bool)
    ensures AnswersLike([], p, e, Some(r))
  {
    if !EndsInEscape(p, e) { LikeEmpty(p, e); }
    for i := 0 to |p|
      invariant forall j | 0 <= j < i :: p[j] == '%' && e != '%'
    {
      if p[i] != '%' || e == '%' { return false; }
    }
    return true;
  }

  /** matchLike, case-sensitive, for two strings. */
  method MatchLike(s: string, p: string) returns (r: Option<bool>)
    ensures AnswersLike(s, p, BACKSLASH, r)
  {
    if s == [] {
      var b := MatchEmpty(p, BACKSLASH);
      return Some(b);
    }
    hide Matches, Tokens, Parse, KindTokens, FastKind, FastText, Usable, IsDangling;
    var err, f := OptimizedLikeFunc(p, BACKSLASH);
    if err {
      FastIsShape(p, BACKSLASH);
      return None;
    }
    if f == null {
      var re := LikePattern(p);
      if re.None? { return None; }
      return Some(Matches(ReadRegex(re.value).value, s));
    }
    FastIsShape(p, BACKSLASH);
    r := f.Call(s);
  }

  /**
   The escape character is no metacharacter, or it is the default one, or the fast path knows
   what to do with the pattern, or else the conversion is right about it.
   */
  predicate IsHandled(p: string, e: char) {
    || e == BACKSLASH || !IsMeta(e)
    || FastKind(p, e).Some? || (IsTried(p) && EndsInEscape(p, e))
    || (if EndsInEscape(p, e) then Detected(Parse(p, e), e, Aligned) else Sound(Parse(p, e), e, false))
  }

  lemma {:induction false} HandledIsRight(p: string, e: char)
    requires IsHandled(p, e) && e != BACKSLASH && FastKind(p, e).None? && !(p != [] && IsTried(p) && EndsInEscape(p, e))
    ensures IsRight(p, e)
  {
    hide IsRight;
    if IsMeta(e) { MetaIsRightExactly(p, e); } else { OrdinaryIsRight(p, e); }
  }

  /** MatchLikeEscape, case-sensitive, for two strings. */
  method MatchLikeEscape(s: string, p: string, e: char) returns (r: Option<bool>)
    requires e != '\0' && (s == [] || IsHandled(p, e))
    ensures AnswersLike(s, p, e, r)
  {
    if s == [] {
      var b := MatchEmpty(p, e);
      return Some(b);
    }
    hide Matches, Tokens, Parse, KindTokens, PatternOf, FastKind, FastText, Usable, IsDangling, IsHandled;
    var err, f := OptimizedLikeFunc(p, e);
    if err {
      FastIsShape(p, e);
      return None;
    }
    if f == null {
      var re;
      if e == BACKSLASH {
        re := LikePattern(p);
      } else {
        HandledIsRight(p, e);
        re := PatternOf(p, e);
      }
      if re.None? { return None; }
      return Some(Matches(ReadRegex(re.value).value, s));
    }
    FastIsShape(p, e);
    r := f.Call(s);
  }
}
