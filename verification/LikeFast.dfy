/**
 LIKE without a regular expression: optimizedLikeFunc turns a pattern whose only wildcards
 are at its ends into a prefix, suffix, substring or equality test. The test is a closure
 that owns the pattern text, and one kind of test shortens that text when it is called.
 */
module LikeFast {
  import opened Values
  import opened LikeSpec
  import opened Escapes

  /** The rune that decoding returns for an invalid encoding. */
  const RUNE_ERROR: char := '\U{FFFD}'

  // ---------------------------------------------------------------------------
  // Reading the shape of a pattern
  // ---------------------------------------------------------------------------

  /** The pattern without its escape characters. */
  function Chars(u: Units): string {
    match u
    case End => []
    case Dangling => []
    case Plain(c, r) => [c] + Chars(r)
    case Escaped(c, r) => [c] + Chars(r)
  }

  lemma {:induction false} UnescapeIsChars(p: string, esc: char)
    ensures Unescape(p, [esc]) == Chars(Parse(p, esc))
    ensures Unpaired(p, [esc]) == EndsInEscape(p, esc)
  {
    hide Removed, Index;
    var tok := [esc];
    if p == [] {
    } else if p[0] != esc {
      CharStep(p, tok);
      UnescapeIsChars(p[1..], esc);
    } else if |p| == 1 {
      assert p == tok;
    } else if p[1] == esc {
      assert tok + tok <= p;
      UnescapeIsChars(p[2..], esc);
    } else {
      assert tok <= p && !(tok + tok <= p) by { assert (tok + tok)[1] == esc; }
      SingleStep(p, tok);
      assert p[1..][1..] == p[2..];
      CharStep(p[1..], tok);
      UnescapeIsChars(p[2..], esc);
    }
  }

  predicate IsWild(c: char) { c == '%' || c == '_' }

  /** Of all but the last character, only the escape character may look like a wildcard. */
  predicate Clean(p: string, esc: char) {
    forall i | 0 <= i < |p| - 1 :: IsWild(p[i]) ==> p[i] == esc
  }

  /** The last character is an unescaped wildcard. */
  predicate WildEnd(p: string, esc: char) {
    p != [] && IsWild(p[|p| - 1]) && p[|p| - 1] != esc && Run(p[..|p| - 1], [esc]) % 2 == 0
  }

  lemma {:induction false} RunSnoc(q: string, c: char, esc: char)
    ensures Run(q + [c], [esc]) == if c == esc then 1 + Run(q, [esc]) else 0
  {
    var s := q + [c];
    assert s[|s| - 1..] == [c] && s[..|s| - 1] == q;
  }

  /** A character other than the escape character starts nothing that reaches to the end. */
  lemma {:induction false} RunAfter(x: string, q: string, esc: char)
    requires x != [] && x[|x| - 1] != esc
    ensures Run(x + q, [esc]) == Run(q, [esc])
  {
    hide Run;
    if q == [] {
      assert x + q == x[..|x| - 1] + [x[|x| - 1]];
      RunSnoc(x[..|x| - 1], x[|x| - 1], esc);
      NoRun(esc);
    } else {
      var q', c := q[..|q| - 1], q[|q| - 1];
      assert q == q' + [c] && x + q == x + q' + [c];
      RunSnoc(x + q', c, esc);
      RunSnoc(q', c, esc);
      RunAfter(x, q', esc);
    }
  }

  lemma {:induction false} NoRun(esc: char)
    ensures Run([], [esc]) == 0
  {
  }

  /** Two escape characters in front keep the parity of the run. */
  lemma {:induction false} RunAfterPair(q: string, esc: char)
    ensures Run([esc, esc] + q, [esc]) % 2 == Run(q, [esc]) % 2
  {
    hide Run;
    if q == [] {
      NoRun(esc);
      RunSnoc([], esc, esc);
      RunSnoc([esc], esc, esc);
      assert [] + [esc] == [esc] && [esc] + [esc] == [esc, esc] + q;
    } else {
      var q', c := q[..|q| - 1], q[|q| - 1];
      assert q == q' + [c] && [esc, esc] + q == [esc, esc] + q' + [c];
      RunSnoc([esc, esc] + q', c, esc);
      RunSnoc(q', c, esc);
      RunAfterPair(q', esc);
    }
  }

  /** Literal characters, and one wildcard if the pattern ends in one. */
  ghost predicate CleanShape(p: string, u: Units, wild: bool) {
    var text := Chars(u);
    if wild
    then p != [] && text != [] && text[|text| - 1] == p[|p| - 1]
         && Tokens(u) == Literals(text[..|text| - 1]) + [PlainToken(p[|p| - 1])]
    else Tokens(u) == Literals(text)
  }

  /** One literal character more in front. */
  lemma {:induction false} CleanCons(c: char, p: string, p': string, u: Units, u': Units, wild: bool)
    requires p' != [] && p != [] && p[|p| - 1] == p'[|p'| - 1] && CleanShape(p', u', wild)
    requires Chars(u) == [c] + Chars(u') && Tokens(u) == [Literal(c)] + Tokens(u')
    ensures CleanShape(p, u, wild)
  {
    var text := Chars(u');
    assert ([c] + text)[1..] == text;
    if wild {
      assert ([c] + text)[..|text|] == [c] + text[..|text| - 1];
      assert ([c] + text[..|text| - 1])[1..] == text[..|text| - 1];
    }
  }

  /** The tokens of a clean pattern. */
  lemma {:induction false} CleanTokens(p: string, esc: char)
    requires Clean(p, esc) && !EndsInEscape(p, esc)
    ensures CleanShape(p, Parse(p, esc), WildEnd(p, esc))
  {
    hide Run, CleanShape;
    if p == [] {
      CleanEmpty(esc);
    } else if |p| == 1 {
      CleanOne(p, esc);
    } else if p[0] != esc {
      CleanTokens(p[1..], esc);
      RunAfter([p[0]], p[1..|p| - 1], esc);
      assert p[..|p| - 1] == [p[0]] + p[1..|p| - 1] && p[1..][..|p| - 2] == p[1..|p| - 1];
      assert !IsWild(p[0]);
      CleanCons(p[0], p, p[1..], Parse(p, esc), Parse(p[1..], esc), WildEnd(p, esc));
    } else if |p| == 2 {
      CleanPair(p, esc);
    } else {
      CleanTokens(p[2..], esc);
      assert p[..|p| - 1] == [esc, p[1]] + p[2..|p| - 1] && p[2..][..|p| - 3] == p[2..|p| - 1];
      if p[1] == esc { RunAfterPair(p[2..|p| - 1], esc); } else { RunAfter([esc, p[1]], p[2..|p| - 1], esc); }
      CleanCons(p[1], p, p[2..], Parse(p, esc), Parse(p[2..], esc), WildEnd(p, esc));
    }
  }

  lemma {:induction false} CleanEmpty(esc: char)
    ensures CleanShape([], Parse([], esc), WildEnd([], esc))
  {
  }

  lemma {:induction false} CleanOne(p: string, esc: char)
    requires |p| == 1 && p[0] != esc
    ensures CleanShape(p, Parse(p, esc), WildEnd(p, esc))
  {
    assert p[1..] == [] && p[..0] == [] && p == [p[0]];
    assert Literals(p[1..]) == [] && Literals(p[..0]) == [];
    NoRun(esc);
  }

  lemma {:induction false} CleanPair(p: string, esc: char)
    requires |p| == 2 && p[0] == esc
    ensures CleanShape(p, Parse(p, esc), WildEnd(p, esc))
  {
    NoRun(esc);
    RunSnoc([], esc, esc);
    assert p[2..] == [] && p[..1] == [] + [esc];
    assert [p[1]][1..] == [] && Literals([]) == [];
  }

  predicate WildStart(p: string, esc: char) { |p| > 1 && IsWild(p[0]) && p[0] != esc }

  function Between(text: string, start: bool, end: bool): string
    requires |text| >= (if start then 1 else 0) + (if end then 1 else 0)
  {
    text[if start then 1 else 0..|text| - if end then 1 else 0]
  }

  function Wildcard(present: bool, c: char): seq<Token> { if present then [PlainToken(c)] else [] }

  /** A pattern with wildcards only at its ends: what its text and its tokens are. */
  lemma {:induction false} EndsShape(p: string, esc: char)
    requires p != [] && !EndsInEscape(p, esc) && (|p| > 1 || !IsWild(p[0]) || p[0] == esc)
    requires forall i | 0 < i < |p| - 1 :: !IsWild(p[i])
    ensures var u, start, end := Parse(p, esc), WildStart(p, esc), WildEnd(p, esc);
            var text := Chars(u);
            && |text| >= (if start then 1 else 0) + (if end then 1 else 0)
            && Tokens(u) == Wildcard(start, p[0]) + Literals(Between(text, start, end)) + Wildcard(end, p[|p| - 1])
  {
    hide Run;
    if WildStart(p, esc) {
      var q := p[1..];
      CleanTokens(q, esc);
      RunAfter([p[0]], q[..|q| - 1], esc);
      assert p[..|p| - 1] == [p[0]] + q[..|q| - 1];
      var text := Chars(Parse(q, esc));
      var end := WildEnd(p, esc);
      assert end == WildEnd(q, esc);
      var core := Between([p[0]] + text, true, end);
      assert core == if end then text[..|text| - 1] else text;
      var w := [PlainToken(p[0])];
      assert end ==> w + (Literals(core) + [PlainToken(p[|p| - 1])]) == w + Literals(core) + [PlainToken(p[|p| - 1])];
    } else {
      CleanTokens(p, esc);
      var text := Chars(Parse(p, esc));
      assert text[0..] == text[0..|text|] == text;
      if WildEnd(p, esc) {
        assert text[0..|text| - 1] == text[..|text| - 1];
      }
    }
  }

  // ---------------------------------------------------------------------------
  // The closures
  // ---------------------------------------------------------------------------

  datatype Kind =
    | IsEmpty
    | Everything
    | OneChar
    | Substring
    | Prefix(oneStart: bool)
    | Suffix(oneEnd: bool)
    | Exact(oneStart: bool, oneEnd: bool)

  /** The wildcards of a kind, at the start and at the end of its text. */
  function StartOf(k: Kind): Option<Token> {
    match k
    case IsEmpty => None
    case Everything => Some(AnyString)
    case OneChar => Some(AnyChar)
    case Substring => Some(AnyString)
    case Prefix(one) => if one then Some(AnyChar) else None
    case Suffix(_) => Some(AnyString)
    case Exact(one, _) => if one then Some(AnyChar) else None
  }

  function EndOf(k: Kind): Option<Token> {
    match k
    case IsEmpty => None
    case Everything => None
    case OneChar => None
    case Substring => Some(AnyString)
    case Prefix(_) => Some(AnyString)
    case Suffix(one) => if one then Some(AnyChar) else None
    case Exact(_, one) => if one then Some(AnyChar) else None
  }

  function AsSeq(t: Option<Token>): seq<Token> { if t.Some? then [t.value] else [] }

  predicate LongEnough(k: Kind, pattern: string) {
    |pattern| >= (if StartOf(k).Some? then 1 else 0) + (if EndOf(k).Some? then 1 else 0)
  }

  /** The text between the wildcards. */
  function Core(k: Kind, pattern: string): string
    requires LongEnough(k, pattern)
  {
    Between(pattern, StartOf(k).Some?, EndOf(k).Some?)
  }

  function KindTokens(k: Kind, pattern: string): seq<Token>
    requires LongEnough(k, pattern)
  {
    AsSeq(StartOf(k)) + Literals(Core(k, pattern)) + AsSeq(EndOf(k))
  }

  /** The closures that optimizedLikeFunc makes. */
  predicate Usable(k: Kind, pattern: string) {
    && LongEnough(k, pattern)
    && (k.IsEmpty? || k.Everything? || k.OneChar? ==> Core(k, pattern) == [])
    && (k.Exact? ==> k.oneStart || k.oneEnd)
  }

  /** The closure decodes the first or last rune of s and cannot tell it from a decoding error. */
  predicate Undecodable(k: Kind, s: string) {
    s != [] &&
    match k
    case OneChar => s[0] == RUNE_ERROR
    case Prefix(one) => one && s[0] == RUNE_ERROR
    case Suffix(one) => one && s[|s| - 1] == RUNE_ERROR
    case Exact(_, _) => s[0] == RUNE_ERROR || s[|s| - 1] == RUNE_ERROR
    case _ => false
  }

  /** The call reaches the comparison of an equality test. */
  predicate Consumes(k: Kind, s: string) {
    k.Exact? && s != [] && !Undecodable(k, s) && !(k.oneStart && k.oneEnd && |s| < 2)
  }

  class LikeFunc {
    const kind: Kind
    var pattern: string

    constructor (kind: Kind, pattern: string)
      ensures this.kind == kind && this.pattern == pattern
    {
      this.kind := kind;
      this.pattern := pattern;
    }

    /**
     One call. The answer is an error for an undecodable rune and otherwise what the tokens of
     the closure's text match. An equality test leaves behind the text that it compared.
     */
    method Call(s: string) returns (r: Option<bool>)
      requires Usable(kind, pattern)
      modifies this
      ensures r == if Undecodable(kind, s) then None else Some(Matches(old(KindTokens(kind, pattern)), s))
      ensures pattern == if Consumes(kind, s) then old(Core(kind, pattern)) else old(pattern)
    {
      hide Matches;
      TestIsMatch(kind, pattern, s);
      match kind
      case IsEmpty => return Some(s == []);
      case Everything => return Some(true);
      case OneChar =>
        if s == [] { return Some(false); }
        if s[0] == RUNE_ERROR { return None; }
        return Some(|s| == 1);
      case Substring =>
        var substr := pattern[1..|pattern| - 1];
        assert substr == Core(kind, pattern);
        return Some(Contains(s, substr));
      case Prefix(one) =>
        var prefix, t := pattern[..|pattern| - 1], s;
        if one {
          if s == [] { return Some(false); }
          prefix := prefix[1..];
          if s[0] == RUNE_ERROR { return None; }
          t := s[1..];
        }
        assert prefix == Core(kind, pattern);
        return Some(prefix <= t);
      case Suffix(one) =>
        var suffix, t := pattern[1..], s;
        if one {
          if s == [] { return Some(false); }
          suffix := suffix[..|suffix| - 1];
          if s[|s| - 1] == RUNE_ERROR { return None; }
          t := s[..|s| - 1];
        }
        assert suffix == Core(kind, pattern);
        return Some(HasSuffix(t, suffix));
      case Exact(_, _) => r := CallExact(s);
    }

    method CallExact(s: string) returns (r: Option<bool>)
      requires kind.Exact? && Usable(kind, pattern)
      modifies this
      ensures r == if Undecodable(kind, s) then None else Some(Test(kind, old(Core(kind, pattern)), s))
      ensures pattern == if Consumes(kind, s) then old(Core(kind, pattern)) else old(pattern)
    {
      var oneStart, oneEnd := kind.oneStart, kind.oneEnd;
      if s == [] { return Some(false); }
      if s[0] == RUNE_ERROR || s[|s| - 1] == RUNE_ERROR { return None; }
      if oneStart && oneEnd && |s| < 2 { return Some(false); }
      var t := s;
      if oneStart {
        pattern := pattern[1..];
        t := t[1..];
      }
      if oneEnd {
        pattern := pattern[..|pattern| - 1];
        t := t[..|t| - 1];
      }
      assert pattern == old(Core(kind, pattern)) && t == Between(s, oneStart, oneEnd);
      return Some(t == pattern);
    }
  }

  /** What each test has to find, in terms of the text between the wildcards. */
  predicate Test(k: Kind, core: string, s: string) {
    match k
    case IsEmpty => s == []
    case Everything => true
    case OneChar => |s| == 1
    case Substring => Contains(s, core)
    case Prefix(one) => if one then s != [] && core <= s[1..] else core <= s
    case Suffix(one) => if one then s != [] && HasSuffix(s[..|s| - 1], core) else HasSuffix(s, core)
    case Exact(a, b) =>
      var n := (if a then 1 else 0) + (if b then 1 else 0);
      |s| >= n && Between(s, a, b) == core
  }

  /** Each test decides its tokens. */
  lemma {:induction false} TestIsMatch(k: Kind, pattern: string, s: string)
    requires Usable(k, pattern)
    ensures Matches(KindTokens(k, pattern), s) == Test(k, Core(k, pattern), s)
  {
    var w := Core(k, pattern);
    var ts := KindTokens(k, pattern);
    match k
    case IsEmpty => assert ts == [];
    case Everything => assert ts == [AnyString]; MatchAll(s);
    case OneChar => assert ts == [AnyChar] + []; MatchAnyChar([], s);
    case Substring => MatchContains(w, s);
    case Prefix(one) =>
      if one {
        assert ts == [AnyChar] + (Literals(w) + [AnyString]);
        MatchAnyChar(Literals(w) + [AnyString], s);
        if s != [] { MatchPrefix(w, s[1..]); }
      } else {
        assert ts == Literals(w) + [AnyString];
        MatchPrefix(w, s);
      }
    case Suffix(one) =>
      if one {
        MatchSuffixThenChar(w, s);
      } else {
        assert ts == [AnyString] + Literals(w);
        MatchSuffix(w, s);
      }
    case Exact(a, b) => ExactIsMatch(a, b, w, s);
  }

  lemma {:induction false} ExactIsMatch(a: bool, b: bool, w: string, s: string)
    ensures Matches((if a then [AnyChar] else []) + Literals(w) + (if b then [AnyChar] else []), s)
         == Test(Exact(a, b), w, s)
  {
    var ts := Literals(w) + (if b then [AnyChar] else []);
    assert (if a then [AnyChar] else []) + Literals(w) + (if b then [AnyChar] else []) == (if a then [AnyChar] else []) + ts;
    assert a || (if a then [AnyChar] else []) + ts == ts;
    if a { MatchAnyChar(ts, s); }
    if !a || s != [] {
      var t := if a then s[1..] else s;
      if b { MatchThenChar(w, t); } else { assert ts == Literals(w); MatchExactly(w, t); }
      if b && t != [] { assert t[..|t| - 1] == Between(s, a, b); }
      if !b { assert t == Between(s, a, b); }
    }
  }

  // ---------------------------------------------------------------------------
  // Which closure, if any
  // ---------------------------------------------------------------------------

  /** The closure for the wildcards at the ends of a pattern, if there are any. */
  function KindOf(anyStart: bool, anyEnd: bool, oneStart: bool, oneEnd: bool): Option<Kind> {
    if anyEnd && anyStart then Some(Substring)
    else if anyEnd then Some(Prefix(oneStart))
    else if anyStart then Some(Suffix(oneEnd))
    else if oneStart || oneEnd then Some(Exact(oneStart, oneEnd))
    else None
  }

  /** A pattern of a single byte. */
  predicate IsByte(p: string) { |p| == 1 && p[0] < '\U{0080}' }

  /** The fast path is looked into: wildcards at the ends only, and no single byte but a wildcard. */
  predicate IsTried(p: string) {
    if IsByte(p) then IsWild(p[0]) else forall i | 0 < i < |p| - 1 :: !IsWild(p[i])
  }

  /** The closure that answers for a pattern; None if the regular expression has to. */
  function FastKind(p: string, esc: char): Option<Kind> {
    if p == [] then Some(IsEmpty)
    else if !IsTried(p) || EndsInEscape(p, esc) then None
    else if IsByte(p) then Some(if p[0] == '%' then Everything else OneChar)
    else KindOf(
           p[0] == '%' && esc != '%', WildEnd(p, esc) && p[|p| - 1] == '%',
           p[0] == '_' && esc != '_', WildEnd(p, esc) && p[|p| - 1] == '_')
  }

  /** The text that the closure starts with. */
  function FastText(p: string, esc: char): string { Chars(Parse(p, esc)) }

  lemma {:induction false} SingleChar(p: string, esc: char)
    requires |p| == 1
    ensures EndsInEscape(p, esc) == (p[0] == esc)
    ensures p[0] != esc ==> Tokens(Parse(p, esc)) == [PlainToken(p[0])] && FastText(p, esc) == p
    ensures Literals([]) == []
  {
    assert p[1..] == [] && p == [p[0]];
    if p[0] != esc {
      assert Parse(p, esc) == Plain(p[0], End);
      assert Tokens(Plain(p[0], End)) == [PlainToken(p[0])] + Tokens(End);
      assert Chars(Plain(p[0], End)) == [p[0]] + Chars(End);
      assert IsDangling(Plain(p[0], End)) == IsDangling(End);
    }
  }

  /** The closure of a pattern tests for exactly the tokens of the pattern. */
  lemma {:induction false} FastIsShape(p: string, esc: char)
    ensures var k, text := FastKind(p, esc), FastText(p, esc);
            k.Some? ==> !EndsInEscape(p, esc) && Usable(k.value, text) && KindTokens(k.value, text) == Tokens(Parse(p, esc))
  {
    if p == [] {
    } else if FastKind(p, esc).Some? {
      if IsByte(p) {
        SingleChar(p, esc);
      } else {
        hide Run, Tokens, Literals, Chars, Parse, IsDangling;
        EndsShape(p, esc);
      }
    }
  }

  /**
   optimizedLikeFunc, case-sensitive: an error exactly for a pattern that it looks into and that
   ends in an escape, otherwise the closure for the pattern, if there is one, with its text.
   */
  method OptimizedLikeFunc(p: string, esc: char) returns (err: bool, f: LikeFunc?)
    ensures err == (p != [] && IsTried(p) && EndsInEscape(p, esc))
    ensures f != null <==> FastKind(p, esc).Some?
    ensures f != null ==> fresh(f) && f.kind == FastKind(p, esc).value && f.pattern == FastText(p, esc)
  {
    hide Run, Unescape, Unpaired, Tokens, Literals, Chars, Parse, IsDangling;
    err, f := false, null;
    if p == [] {
      EmptyText(esc);
      f := new LikeFunc(IsEmpty, p);
    } else if IsByte(p) {
      SingleChar(p, esc);
      if IsWild(p[0]) {
        if esc == p[0] {
          err := true;
        } else {
          f := new LikeFunc(if p[0] == '%' then Everything else OneChar, p);
        }
      }
    } else if IsTried(p) {
      err, f := FastEnds(p, esc);
    }
  }

  lemma {:induction false} EmptyText(esc: char)
    ensures FastText([], esc) == [] && !EndsInEscape([], esc)
  {
  }

  /** The general case: the flags of the source, and the closure they select. */
  method FastEnds(p: string, esc: char) returns (err: bool, f: LikeFunc?)
    requires p != [] && !IsByte(p) && IsTried(p)
    ensures err == EndsInEscape(p, esc)
    ensures f != null <==> FastKind(p, esc).Some?
    ensures f != null ==> fresh(f) && f.kind == FastKind(p, esc).value && f.pattern == FastText(p, esc)
  {
    hide Run, Unescape, Unpaired, Tokens, Literals, Chars, Parse, IsDangling;
    var anyEnd := HasUnescapedSuffix(p, '%', [esc]);
    anyEnd := anyEnd && esc != '%';
    var anyStart := p[0] == '%' && esc != '%';
    var singleAnyEnd := HasUnescapedSuffix(p, '_', [esc]);
    singleAnyEnd := singleAnyEnd && esc != '_';
    var singleAnyStart := p[0] == '_' && esc != '_';
    var text := UnescapePattern(p, [esc], true);
    UnescapeIsChars(p, esc);
    if text.None? {
      return true, null;
    }
    err, f := false, null;
    if anyEnd && anyStart {
      f := new LikeFunc(Substring, text.value);
    } else if anyEnd {
      f := new LikeFunc(Prefix(singleAnyStart), text.value);
    } else if anyStart {
      f := new LikeFunc(Suffix(singleAnyEnd), text.value);
    } else if singleAnyStart || singleAnyEnd {
      f := new LikeFunc(Exact(singleAnyStart, singleAnyEnd), text.value);
    }
  }

  // ---------------------------------------------------------------------------
  // Using a closure again
  // ---------------------------------------------------------------------------

  /** The text that a call leaves. */
  function Left(k: Kind, pattern: string, s: string): string
    requires LongEnough(k, pattern)
  {
    if Consumes(k, s) then Core(k, pattern) else pattern
  }

  /** Used again, a closure that has consumed its text denies every string it accepted before. */
  lemma {:induction false} ConsumedDenies(k: Kind, pattern: string, s: string)
    requires k.Exact? && Usable(k, pattern) && Usable(k, Core(k, pattern))
    requires Matches(KindTokens(k, pattern), s)
    ensures !Matches(KindTokens(k, Core(k, pattern)), s)
  {
    hide Matches;
    TestIsMatch(k, pattern, s);
    TestIsMatch(k, Core(k, pattern), s);
    assert |Core(k, Core(k, pattern))| < |Core(k, pattern)|;
  }

  /** Every closure with an equality test accepts something. */
  lemma {:induction false} AcceptsSomething(k: Kind, pattern: string) returns (t: string)
    requires k.Exact? && Usable(k, pattern)
    ensures Matches(KindTokens(k, pattern), t)
  {
    hide Matches;
    var x, core := "x", Core(k, pattern);
    t := (if k.oneStart then x else []) + core + (if k.oneEnd then x else []);
    assert Between(t, k.oneStart, k.oneEnd) == core;
    TestIsMatch(k, pattern, t);
  }

  /** The closure can be called again without slicing out of range, and answers as before. */
  ghost predicate IsReusable(k: Kind, pattern: string, left: string)
    requires LongEnough(k, pattern)
  {
    Usable(k, left) && forall t :: Matches(KindTokens(k, left), t) == Matches(KindTokens(k, pattern), t)
  }

  /** A closure may be used again after a call exactly if the call did not get to an equality test. */
  lemma {:induction false} ReusableExactly(k: Kind, pattern: string, s: string)
    requires Usable(k, pattern)
    ensures IsReusable(k, pattern, Left(k, pattern, s)) <==> !Consumes(k, s)
  {
    hide Matches, KindTokens;
    if Consumes(k, s) && Usable(k, Core(k, pattern)) {
      var t := AcceptsSomething(k, pattern);
      ConsumedDenies(k, pattern, t);
    }
  }

  /** a_ is used up by one call: the second call compares with nothing, and the third cannot be made. */
  lemma {:induction false} UsedUp()
    ensures var k := Exact(false, true);
            && Left(k, "a_", "ab") == "a" && Usable(k, "a") && !Matches(KindTokens(k, "a"), "ab")
            && Left(k, "a", "ab") == "" && !Usable(k, "")
  {
    var k := Exact(false, true);
    hide Matches;
    TestIsMatch(k, "a", "ab");
    assert Core(k, "a_") == "a" && Core(k, "a") == "" && Between("ab", false, true) == "a";
  }
}
