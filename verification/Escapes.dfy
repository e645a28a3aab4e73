/**
 Escape tokens: removing them (unescapePattern) and rewriting around them
 (replaceUnescaped, hasUnescapedSuffix). A token is the escape character itself, or two
 backslashes once a pattern has been quoted for a regular expression.
 */
module Escapes {
  import opened Values

  /** One character, once or several times over: what every caller passes as a token. */
  predicate IsToken(tok: string) { |tok| > 0 && forall i | 0 <= i < |tok| :: tok[i] == tok[0] }

  // ---------------------------------------------------------------------------
  // Occurrences
  // ---------------------------------------------------------------------------

  /** The first occurrence of tok in s, or -1. */
  function Index(s: string, tok: string): (r: int)
    requires tok != []
    ensures -1 <= r <= |s| && (r >= 0 ==> tok <= s[r..])
  {
    if tok <= s then 0
    else if s == [] then -1
    else var r := Index(s[1..], tok); if r < 0 then -1 else r + 1
  }

  /** How often tok occurs in s, counting from the left without overlaps. */
  function Count(s: string, tok: string): nat
    requires tok != []
  {
    if s == [] then 0
    else if tok <= s then 1 + Count(s[|tok|..], tok)
    else Count(s[1..], tok)
  }

  // ---------------------------------------------------------------------------
  // Removing escape tokens
  // ---------------------------------------------------------------------------

  /** Reading from the left: two tokens stand for one, one token alone disappears. */
  function Unescape(s: string, tok: string): string
    requires tok != []
  {
    if s == [] then []
    else if tok + tok <= s then tok + Unescape(s[2 * |tok|..], tok)
    else if tok <= s then Unescape(s[|tok|..], tok)
    else [s[0]] + Unescape(s[1..], tok)
  }

  /** The last token, reading from the left, ends the string and escapes nothing. */
  predicate Unpaired(s: string, tok: string)
    requires tok != []
  {
    if s == [] then false
    else if tok + tok <= s then Unpaired(s[2 * |tok|..], tok)
    else if tok <= s then s == tok || Unpaired(s[|tok|..], tok)
    else Unpaired(s[1..], tok)
  }

  /** The number of tokens that unescaping removes, as the source counts them. */
  function Removed(s: string, tok: string): int
    requires tok != []
  {
    Count(s, tok) - Count(s, tok + tok)
  }

  lemma {:induction false} SkipCount(s: string, tok: string, n: nat)
    requires tok != [] && n <= |s|
    requires forall t | 0 <= t < n :: !(tok <= s[t..])
    ensures Count(s, tok) == Count(s[n..], tok)
  {
    if n == 0 {
      assert s[0..] == s;
    } else {
      assert s[0..] == s;
      assert forall t | 0 <= t < n - 1 :: s[1..][t..] == s[t + 1..];
      SkipCount(s[1..], tok, n - 1);
      assert s[1..][n - 1..] == s[n..];
    }
  }

  lemma {:induction false} PairIsToken(s: string, tok: string)
    ensures tok + tok <= s ==> tok <= s
  {
  }

  /** Without a token in front, one character is passed over. */
  lemma {:induction false} RemovedChar(s: string, tok: string)
    requires IsToken(tok) && s != [] && !(tok <= s)
    ensures Removed(s, tok) == Removed(s[1..], tok)
  {
    PairIsToken(s, tok);
  }

  lemma {:induction false} RemovedPair(s: string, tok: string)
    requires IsToken(tok) && tok + tok <= s
    ensures Removed(s, tok) == 1 + Removed(s[2 * |tok|..], tok)
  {
    hide Count;
    var k, t := |tok|, s[|tok|..];
    SecondToken(s, tok);
    PairIsToken(s, tok);
    CountStep(s, tok);
    CountStep(t, tok);
    CountStep(s, tok + tok);
    assert t[k..] == s[2 * k..] && |tok + tok| == 2 * k;
  }

  lemma {:induction false} SecondToken(s: string, tok: string)
    requires tok + tok <= s
    ensures tok <= s[|tok|..]
  {
    assert s[|tok|..][..|tok|] == (tok + tok)[|tok|..];
  }

  /** Two tokens that start inside a token make two tokens from its start. */
  lemma {:induction false} PairInside(s: string, tok: string, t: nat)
    requires IsToken(tok) && tok <= s && t < |tok|
    ensures tok + tok <= s[t..] ==> tok + tok <= s
  {
    if tok + tok <= s[t..] {
      var k := |tok|;
      forall i | 0 <= i < 2 * k ensures s[i] == (tok + tok)[i] {
        if i >= k { assert s[i] == s[t..][i - t] == (tok + tok)[i - t]; }
      }
    }
  }

  /** A lone token does not overlap any pair that starts inside it. */
  lemma {:induction false} RemovedSingle(s: string, tok: string)
    requires IsToken(tok) && tok <= s && !(tok + tok <= s)
    ensures Removed(s, tok) == 1 + Removed(s[|tok|..], tok)
  {
    forall t | 0 <= t < |tok| ensures !(tok + tok <= s[t..]) { PairInside(s, tok, t); }
    SkipCount(s, tok + tok, |tok|);
  }

  lemma {:induction false} RemovedIsNatural(s: string, tok: string)
    requires IsToken(tok)
    ensures Removed(s, tok) >= 0
  {
    if s == [] {
    } else if tok + tok <= s {
      RemovedPair(s, tok);
      RemovedIsNatural(s[2 * |tok|..], tok);
    } else if tok <= s {
      RemovedSingle(s, tok);
      RemovedIsNatural(s[|tok|..], tok);
    } else {
      RemovedChar(s, tok);
      RemovedIsNatural(s[1..], tok);
    }
  }

  /** The buffer the source allocates has exactly the size of the result. */
  lemma {:induction false} UnescapeLength(s: string, tok: string)
    requires IsToken(tok)
    ensures |Unescape(s, tok)| == |s| - Removed(s, tok) * |tok|
  {
    hide Removed;
    if s == [] {
      assert Removed(s, tok) == 0 by { NothingRemoved(tok); }
    } else if tok + tok <= s {
      RemovedPair(s, tok);
      UnescapeLength(s[2 * |tok|..], tok);
      OneMore(Removed(s[2 * |tok|..], tok), |tok|);
    } else if tok <= s {
      RemovedSingle(s, tok);
      UnescapeLength(s[|tok|..], tok);
      OneMore(Removed(s[|tok|..], tok), |tok|);
    } else {
      RemovedChar(s, tok);
      UnescapeLength(s[1..], tok);
    }
  }

  lemma {:induction false} NothingRemoved(tok: string)
    requires tok != []
    ensures Removed([], tok) == 0
  {
  }

  lemma {:induction false} OneMore(n: int, k: int)
    ensures (1 + n) * k == k + n * k
  {
  }

  /** Go's copy: as much of src as fits from position at on. */
  method Copy(ret: array<char>, at: nat, src: string) returns (n: nat)
    requires at <= ret.Length
    modifies ret
    ensures n == if |src| <= ret.Length - at then |src| else ret.Length - at
    ensures ret[..at + n] == old(ret[..at]) + src[..n]
    ensures n == |src| ==> ret[..at + n] == old(ret[..at]) + src
  {
    n := if |src| <= ret.Length - at then |src| else ret.Length - at;
    forall i | 0 <= i < n {
      ret[at + i] := src[i];
    }
  }

  // ---------------------------------------------------------------------------
  // One round of the loop, at the first token
  // ---------------------------------------------------------------------------

  lemma {:induction false} PairStep(s: string, tok: string)
    requires IsToken(tok) && tok + tok <= s
    ensures Unescape(s, tok) == tok + Unescape(s[2 * |tok|..], tok)
    ensures Removed(s, tok) == 1 + Removed(s[2 * |tok|..], tok)
    ensures Unpaired(s, tok) == Unpaired(s[2 * |tok|..], tok)
  {
    RemovedPair(s, tok);
  }

  lemma {:induction false} SingleStep(s: string, tok: string)
    requires IsToken(tok) && tok <= s && !(tok + tok <= s)
    ensures Unescape(s, tok) == Unescape(s[|tok|..], tok)
    ensures Removed(s, tok) == 1 + Removed(s[|tok|..], tok)
    ensures Unpaired(s, tok) == (s == tok || Unpaired(s[|tok|..], tok))
  {
    RemovedSingle(s, tok);
  }

  lemma {:induction false} CharStep(s: string, tok: string)
    requires IsToken(tok) && s != [] && !(tok <= s)
    ensures Unescape(s, tok) == [s[0]] + Unescape(s[1..], tok)
    ensures Removed(s, tok) == Removed(s[1..], tok)
    ensures Unpaired(s, tok) == Unpaired(s[1..], tok)
    ensures Index(s, tok) == if Index(s[1..], tok) < 0 then -1 else Index(s[1..], tok) + 1
  {
    PairIsToken(s, tok);
    RemovedChar(s, tok);
  }

  lemma {:induction false} Prepend(s: string, j: nat, t: string)
    requires j < |s|
    ensures [s[0]] + (s[1..][..j] + t) == s[..j + 1] + t
  {
  }

  lemma {:induction false} FrontIndex(s: string, tok: string)
    requires tok != []
    ensures tok <= s ==> Index(s, tok) == 0
  {
  }

  /** Everything before the first token is copied. */
  lemma {:induction false} BeforeFirst(s: string, tok: string)
    requires IsToken(tok) && Removed(s, tok) > 0
    ensures 0 <= Index(s, tok)
    ensures Unescape(s, tok) == s[..Index(s, tok)] + Unescape(s[Index(s, tok)..], tok)
    ensures Unpaired(s, tok) == Unpaired(s[Index(s, tok)..], tok)
    ensures Removed(s, tok) == Removed(s[Index(s, tok)..], tok)
  {
    hide Removed, Unescape, Unpaired, Index, Count;
    NothingRemoved(tok);
    FrontIndex(s, tok);
    if tok <= s {
      assert s[0..] == s && s[..0] == [];
      assert [] + Unescape(s, tok) == Unescape(s, tok);
    } else {
      CharStep(s, tok);
      BeforeFirst(s[1..], tok);
      var j := Index(s[1..], tok);
      assert s[1..][j..] == s[j + 1..];
      Prepend(s, j, Unescape(s[j + 1..], tok));
    }
  }

  lemma {:induction false} RemovedFront(s: string, tok: string)
    requires IsToken(tok)
    ensures tok <= s ==> Removed(s, tok) > 0
  {
    hide Removed;
    if tok + tok <= s {
      RemovedPair(s, tok);
      RemovedIsNatural(s[2 * |tok|..], tok);
    } else if tok <= s {
      RemovedSingle(s, tok);
      RemovedIsNatural(s[|tok|..], tok);
    }
  }

  lemma {:induction false} NothingToRemove(s: string, tok: string)
    requires IsToken(tok) && Removed(s, tok) == 0
    ensures Unescape(s, tok) == s && !Unpaired(s, tok)
  {
    hide Removed;
    RemovedFront(s, tok);
    if s != [] {
      CharStep(s, tok);
      NothingToRemove(s[1..], tok);
    }
  }

  /**
   What the loop of unescapePattern keeps: so much is written, so much is still to be read
   and so many tokens are still to be removed. Where a pair of tokens ends the pattern, the
   source drops the first of the two and leaves the second in place.
   */
  ghost predicate Progress(pattern: string, tok: string, done: string, rest: string, left: int, strict: bool)
    requires tok != []
  {
    || (&& Removed(rest, tok) == left
        && Unescape(pattern, tok) == done + Unescape(rest, tok)
        && (strict ==> Unpaired(pattern, tok) == Unpaired(rest, tok)))
    || (&& left == 0
        && Unescape(pattern, tok) == done + rest
        && (strict ==> !Unpaired(pattern, tok)))
  }

  /** The rest of the pattern from its first token on, and the two ways to go past that token. */
  lemma {:induction false} Round(pattern: string, tok: string, done: string, rest: string, left: int, strict: bool)
    requires IsToken(tok) && left > 0 && Progress(pattern, tok, done, rest, left, strict)
    ensures 0 <= Index(rest, tok)
    ensures var j, k := Index(rest, tok), |tok|;
            && j + k <= |rest|
            && |done| + j <= |Unescape(pattern, tok)|
            && (strict && j == |rest| - k ==> Unpaired(pattern, tok))
            && (if j < |rest| - 2 * k && rest[j..j + 2 * k] == tok + tok
                then && |done| + j + k <= |Unescape(pattern, tok)|
                     && Progress(pattern, tok, done + rest[..j] + tok, rest[j + 2 * k..], left - 1, strict)
                else (strict && j == |rest| - k) || Progress(pattern, tok, done + rest[..j], rest[j + k..], left - 1, strict))
  {
    hide Removed, Unescape, Unpaired, Count, Index;
    BeforeFirst(rest, tok);
    var j, k := Index(rest, tok), |tok|;
    var tail := rest[j..];
    assert Unescape(pattern, tok) == done + rest[..j] + Unescape(tail, tok);
    assert tail[k..] == rest[j + k..];
    if tok + tok <= tail {
      PairStep(tail, tok);
      assert tail[2 * k..] == rest[j + 2 * k..];
      assert rest[j..j + 2 * k] == tail[..2 * k] == tok + tok;
      assert done + rest[..j] + (tok + Unescape(tail[2 * k..], tok)) == done + rest[..j] + tok + Unescape(tail[2 * k..], tok);
      if j == |rest| - 2 * k {
        AllConsumed(tail, tok, left);
        assert tail[k..] == tok;
      }
    } else {
      SingleStep(tail, tok);
      assert j < |rest| - 2 * k ==> rest[j..j + 2 * k] == tail[..2 * k];
    }
  }

  /** A pair of tokens at the very end is the last thing to be removed. */
  lemma {:induction false} AllConsumed(s: string, tok: string, left: int)
    requires IsToken(tok) && s == tok + tok && Removed(s, tok) == left
    ensures left == 1 && Unescape(s, tok) == tok && !Unpaired(s, tok)
  {
    PairStep(s, tok);
    assert s[2 * |tok|..] == [];
  }

  /** unescapePattern: the error exactly for a token that escapes nothing, else the unescaped text. */
  method UnescapePattern(pattern: string, tok: string, emitError: bool) returns (r: Option<string>)
    requires IsToken(tok)
    ensures r == if emitError && Unpaired(pattern, tok) then None else Some(Unescape(pattern, tok))
  {
    hide Removed, Unescape, Unpaired, Count, Index, Progress;
    var k := |tok|;
    var nEscapes := Count(pattern, tok) - Count(pattern, tok + tok);
    Start(pattern, tok, emitError, nEscapes);
    if nEscapes == 0 {
      return Some(pattern);
    }
    var ret := new char[|pattern| - nEscapes * k];
    var retWidth, rest, i := 0, pattern, 0;
    assert ret[..0] == [];
    while i < nEscapes
      invariant 0 <= i <= nEscapes && 0 <= retWidth <= ret.Length
      invariant Progress(pattern, tok, ret[..retWidth], rest, nEscapes - i, emitError)
    {
      Round(pattern, tok, ret[..retWidth], rest, nEscapes - i, emitError);
      var nextIdx := Index(rest, tok);
      if nextIdx == |rest| - k && emitError {
        return None;
      }
      var n := Copy(ret, retWidth, rest[..nextIdx]);
      retWidth := retWidth + n;
      if nextIdx < |rest| - 2 * k && rest[nextIdx..nextIdx + 2 * k] == tok + tok {
        n := Copy(ret, retWidth, tok);
        retWidth := retWidth + n;
        rest := rest[nextIdx + 2 * k..];
      } else {
        rest := rest[nextIdx + k..];
      }
      i := i + 1;
    }
    Finish(pattern, tok, ret[..retWidth], rest, emitError);
    var n := Copy(ret, retWidth, rest);
    retWidth := retWidth + n;
    r := Some(ret[..retWidth]);
  }

  lemma {:induction false} Start(pattern: string, tok: string, strict: bool, n: int)
    requires IsToken(tok) && n == Count(pattern, tok) - Count(pattern, tok + tok)
    ensures n >= 0 && |Unescape(pattern, tok)| == |pattern| - n * |tok|
    ensures Progress(pattern, tok, [], pattern, n, strict)
    ensures n == 0 ==> Unescape(pattern, tok) == pattern && !Unpaired(pattern, tok)
  {
    hide Unescape, Unpaired, Index, Count;
    RemovedIsNatural(pattern, tok);
    UnescapeLength(pattern, tok);
    assert [] + Unescape(pattern, tok) == Unescape(pattern, tok);
    if n == 0 { NothingToRemove(pattern, tok); }
  }

  lemma {:induction false} Finish(pattern: string, tok: string, done: string, rest: string, strict: bool)
    requires IsToken(tok) && Progress(pattern, tok, done, rest, 0, strict)
    ensures Unescape(pattern, tok) == done + rest && (strict ==> !Unpaired(pattern, tok))
  {
    hide Removed, Unescape, Unpaired, Index, Count;
    if Removed(rest, tok) == 0 { NothingToRemove(rest, tok); }
  }

  // ---------------------------------------------------------------------------
  // Rewriting what is not escaped
  // ---------------------------------------------------------------------------

  predicate EndsWith(s: string, tok: string) { |tok| <= |s| && s[|s| - |tok|..] == tok }

  /** How many tokens in a row end s. */
  function Run(s: string, tok: string): nat
    requires tok != []
  {
    if EndsWith(s, tok) then 1 + Run(s[..|s| - |tok|], tok) else 0
  }

  /**
   What becomes of rest after q: every occurrence of the target, from the left, is replaced if
   an even run of tokens is before it.
   */
  function Replace(q: string, rest: string, target: string, repl: string, tok: string): string
    requires target != [] && tok != []
    decreases |rest|
  {
    if rest == [] then []
    else if target <= rest then
      (if Run(q, tok) % 2 == 0 then repl else target) + Replace(q + target, rest[|target|..], target, repl, tok)
    else [rest[0]] + Replace(q + [rest[0]], rest[1..], target, repl, tok)
  }

  lemma {:induction false} ReplaceChar(q: string, c: char, y: string, target: string, repl: string, tok: string)
    requires target != [] && tok != [] && !(target <= [c] + y)
    ensures Replace(q, [c] + y, target, repl, tok) == [c] + Replace(q + [c], y, target, repl, tok)
  {
    assert ([c] + y)[1..] == y;
  }

  lemma {:induction false} ReplaceFound(q: string, y: string, target: string, repl: string, tok: string)
    requires target != [] && tok != []
    ensures Replace(q, target + y, target, repl, tok)
         == (if Run(q, tok) % 2 == 0 then repl else target) + Replace(q + target, y, target, repl, tok)
  {
    assert (target + y)[|target|..] == y;
  }

  /** Text in which no occurrence begins is copied. */
  lemma {:induction false} ReplaceNowhere(q: string, x: string, y: string, target: string, repl: string, tok: string)
    requires target != [] && tok != [] && forall i | 0 <= i < |x| :: !(target <= x[i..] + y)
    ensures Replace(q, x + y, target, repl, tok) == x + Replace(q + x, y, target, repl, tok)
    decreases |x|
  {
    hide Replace;
    if x == [] {
      assert x + y == y && q + x == q;
    } else {
      var c, z := x[0], x[1..];
      assert x == [c] + z && x + y == [c] + (z + y) && q + x == q + [c] + z;
      assert x[0..] == x;
      assert forall i | 0 <= i < |z| :: z[i..] == x[i + 1..];
      ReplaceChar(q, c, z + y, target, repl, tok);
      ReplaceNowhere(q + [c], z, y, target, repl, tok);
    }
  }

  /** In particular text without the first character of the target. */
  lemma {:induction false} ReplacePlain(q: string, x: string, y: string, target: string, repl: string, tok: string)
    requires target != [] && tok != [] && target[0] !in x
    ensures Replace(q, x + y, target, repl, tok) == x + Replace(q + x, y, target, repl, tok)
  {
    hide Replace;
    forall i | 0 <= i < |x| ensures !(target <= x[i..] + y) { assert (x[i..] + y)[0] == x[i]; }
    ReplaceNowhere(q, x, y, target, repl, tok);
  }

  lemma {:induction false} RunAt(s: string, at: nat, tok: string)
    requires tok != [] && at <= |s|
    ensures Run(s[..at], tok)
         == if at >= |tok| && s[at - |tok|..at] == tok then 1 + Run(s[..at - |tok|], tok) else 0
  {
    if at >= |tok| {
      assert s[..at][at - |tok|..] == s[at - |tok|..at];
      assert s[..at][..at - |tok|] == s[..at - |tok|];
    }
  }

  /** Looking back over the tokens before position at. */
  method OddTokensBefore(s: string, at: nat, tok: string) returns (escaped: bool)
    requires tok != [] && at <= |s|
    ensures escaped == (Run(s[..at], tok) % 2 == 1)
  {
    hide Run;
    escaped := false;
    var curIdx := at;
    RunAt(s, curIdx, tok);
    while curIdx - |tok| >= 0 && s[curIdx - |tok|..curIdx] == tok
      invariant 0 <= curIdx <= at
      invariant escaped == ((Run(s[..at], tok) - Run(s[..curIdx], tok)) % 2 == 1)
      invariant Run(s[..curIdx], tok)
             == if curIdx >= |tok| && s[curIdx - |tok|..curIdx] == tok then 1 + Run(s[..curIdx - |tok|], tok) else 0
    {
      escaped := !escaped;
      curIdx := curIdx - |tok|;
      RunAt(s, curIdx, tok);
    }
  }

  /** hasUnescapedSuffix: the last character is the wanted one and an even run of tokens is before it. */
  method HasUnescapedSuffix(s: string, suffix: char, tok: string) returns (r: bool)
    requires s != [] && tok != []
    ensures r == (s[|s| - 1] == suffix && Run(s[..|s| - 1], tok) % 2 == 0)
  {
    if s[|s| - 1] == suffix {
      var odd := OddTokensBefore(s, |s| - 1, tok);
      return !odd;
    }
    return false;
  }

  lemma {:induction false} NoOccurrence(q: string, s: string, target: string, repl: string, tok: string)
    requires target != [] && tok != [] && Count(s, target) == 0
    ensures Replace(q, s, target, repl, tok) == s
    decreases |s|
  {
    if s != [] { NoOccurrence(q + [s[0]], s[1..], target, repl, tok); }
  }

  lemma {:induction false} CountStep(s: string, target: string)
    requires target != []
    ensures s == [] ==> Count(s, target) == 0
    ensures s != [] && !(target <= s) ==> Count(s, target) == Count(s[1..], target)
    ensures target <= s ==> Count(s, target) == 1 + Count(s[|target|..], target)
  {
  }

  lemma {:induction false} IndexStep(s: string, target: string)
    requires target != []
    ensures target <= s ==> Index(s, target) == 0
    ensures s != [] && !(target <= s) ==> Index(s, target) == if Index(s[1..], target) < 0 then -1 else Index(s[1..], target) + 1
  {
  }

  lemma {:induction false} ReplaceStep(q: string, s: string, target: string, repl: string, tok: string)
    requires target != [] && tok != [] && s != [] && !(target <= s)
    ensures Replace(q, s, target, repl, tok) == [s[0]] + Replace(q + [s[0]], s[1..], target, repl, tok)
  {
  }

  /** Everything before the first occurrence is copied. */
  lemma {:induction false} FirstOccurrence(q: string, s: string, target: string, repl: string, tok: string)
    requires target != [] && tok != [] && Count(s, target) > 0
    ensures var j := Index(s, target);
            && 0 <= j && j + |target| <= |s| && target <= s[j..]
            && Count(s[j + |target|..], target) == Count(s, target) - 1
            && Replace(q, s, target, repl, tok) == s[..j] + Replace(q + s[..j], s[j..], target, repl, tok)
    decreases |s|
  {
    hide Count, Index, Replace;
    CountStep(s, target);
    IndexStep(s, target);
    if target <= s {
      assert s[0..] == s && s[..0] == [] && q + [] == q;
      assert [] + Replace(q, s, target, repl, tok) == Replace(q, s, target, repl, tok);
    } else {
      FirstOccurrence(q + [s[0]], s[1..], target, repl, tok);
      ReplaceStep(q, s, target, repl, tok);
      var j := Index(s[1..], target);
      assert s[1..][j..] == s[j + 1..] && s[1..][j + |target|..] == s[j + 1 + |target|..];
      assert q + [s[0]] + s[1..][..j] == q + s[..j + 1];
      Prepend(s, j, Replace(q + s[..j + 1], s[j + 1..], target, repl, tok));
    }
  }

  /** What the loop of replaceUnescaped keeps: so much is written, and s is read up to start. */
  ghost predicate Written(done: string, s: string, start: nat, target: string, repl: string, tok: string)
    requires target != [] && tok != [] && start <= |s|
  {
    Replace([], s, target, repl, tok) == done + Replace(s[..start], s[start..], target, repl, tok)
  }

  lemma {:induction false} WrittenNothing(s: string, target: string, repl: string, tok: string)
    requires target != [] && tok != []
    ensures Written([], s, 0, target, repl, tok)
  {
    hide Replace;
    assert s[..0] == [] && s[0..] == s;
  }

  lemma {:induction false} WrittenAll(done: string, s: string, start: nat, target: string, repl: string, tok: string)
    requires target != [] && tok != [] && start <= |s| && Written(done, s, start, target, repl, tok) && Count(s[start..], target) == 0
    ensures Replace([], s, target, repl, tok) == done + s[start..]
  {
    hide Replace;
    NoOccurrence(s[..start], s[start..], target, repl, tok);
  }

  /** From one occurrence to past it. */
  lemma {:induction false} WrittenNext(done: string, s: string, start: nat, target: string, repl: string, tok: string)
    requires target != [] && tok != [] && start <= |s| && Count(s[start..], target) > 0
    requires Written(done, s, start, target, repl, tok)
    ensures 0 <= Index(s[start..], target)
    ensures var at := start + Index(s[start..], target);
            var end := at + |target|;
            && end <= |s|
            && Count(s[end..], target) == Count(s[start..], target) - 1
            && Written(done + s[start..at] + (if Run(s[..at], tok) % 2 == 1 then target else repl), s, end, target, repl, tok)
  {
    hide Replace, Run, Count, Index;
    var rest := s[start..];
    FirstOccurrence(s[..start], rest, target, repl, tok);
    var j := Index(rest, target);
    var at, end := start + j, start + j + |target|;
    assert rest[..j] == s[start..at] && rest[j..] == s[at..] && rest[j + |target|..] == s[end..];
    assert s[..start] + s[start..at] == s[..at];
    FoundAt(s, at, target, repl, tok);
    var x := if Run(s[..at], tok) % 2 == 1 then target else repl;
    var y := Replace(s[..end], s[end..], target, repl, tok);
    assert done + (s[start..at] + (x + y)) == done + s[start..at] + x + y;
  }

  lemma {:induction false} FoundAt(s: string, at: nat, target: string, repl: string, tok: string)
    requires target != [] && tok != [] && at + |target| <= |s| && target <= s[at..]
    ensures var end := at + |target|;
            Replace(s[..at], s[at..], target, repl, tok)
            == (if Run(s[..at], tok) % 2 == 1 then target else repl) + Replace(s[..end], s[end..], target, repl, tok)
  {
    hide Replace, Run;
    var end := at + |target|;
    assert s[at..] == target + s[end..] && s[..at] + target == s[..end];
    ReplaceFound(s[..at], s[end..], target, repl, tok);
  }

  /** The room that n occurrences may still take beyond their own. */
  ghost function Reserve(n: nat, extra: int): nat {
    if n == 0 then 0 else Reserve(n - 1, extra) + (if extra > 0 then extra else 0)
  }

  lemma {:induction false} ReserveAll(n: nat, extra: int)
    ensures Reserve(n, extra) == if n * extra > 0 then n * extra else 0
  {
    if n > 0 {
      ReserveAll(n - 1, extra);
      OneMore(n - 1, extra);
      if extra > 0 { NotNegative(n - 1, extra); } else { NotNegative(n - 1, 0 - extra); Opposite(n - 1, extra); }
    }
  }

  lemma {:induction false} NotNegative(n: nat, k: nat)
    ensures n * k >= 0
  {
  }

  lemma {:induction false} Opposite(n: int, k: int)
    ensures n * (0 - k) == 0 - n * k
  {
  }

  /** The text up to the next occurrence, and the occurrence itself or its replacement. */
  method CopyNext(ret: array<char>, at: nat, text: string, found: string, repl: string, escaped: bool) returns (end: nat)
    requires at + |text| + (if escaped then |found| else |repl|) <= ret.Length
    modifies ret
    ensures end == at + |text| + (if escaped then |found| else |repl|)
    ensures ret[..end] == old(ret[..at]) + text + (if escaped then found else repl)
  {
    var n;
    if escaped {
      n := Copy(ret, at, text + found);
      assert old(ret[..at]) + (text + found) == old(ret[..at]) + text + found;
      end := at + n;
    } else {
      n := Copy(ret, at, text);
      end := at + n;
      n := Copy(ret, end, repl);
      end := end + n;
    }
  }

  /** replaceUnescaped: the buffer is always large enough, and what it holds is the replacement. */
  method ReplaceUnescaped(s: string, target: string, repl: string, tok: string) returns (r: string)
    requires target != [] && tok != []
    ensures r == Replace([], s, target, repl, tok)
  {
    hide Replace, Run, Count, Index, Written;
    var nOld := Count(s, target);
    if nOld == 0 {
      NoOccurrence([], s, target, repl, tok);
      return s;
    }
    var retLen := |s|;
    var addnBytes := nOld * (|repl| - |target|);
    if addnBytes > 0 { retLen := retLen + addnBytes; }
    var ret := new char[retLen];
    var retWidth, start, i := 0, 0, 0;
    WrittenNothing(s, target, repl, tok);
    assert ret[..0] == [] && s[0..] == s;
    ReserveAll(nOld, |repl| - |target|);
    while i < nOld
      invariant 0 <= i <= nOld && 0 <= start <= |s| && 0 <= retWidth <= ret.Length
      invariant Written(ret[..retWidth], s, start, target, repl, tok)
      invariant Count(s[start..], target) == nOld - i
      invariant retWidth + (|s| - start) + Reserve(nOld - i, |repl| - |target|) <= ret.Length
    {
      WrittenNext(ret[..retWidth], s, start, target, repl, tok);
      var nextIdx := start + Index(s[start..], target);
      var escaped := OddTokensBefore(s, nextIdx, tok);
      retWidth := CopyNext(ret, retWidth, s[start..nextIdx], target, repl, escaped);
      start := nextIdx + |target|;
      i := i + 1;
    }
    WrittenAll(ret[..retWidth], s, start, target, repl, tok);
    var n := Copy(ret, retWidth, s[start..]);
    retWidth := retWidth + n;
    r := ret[..retWidth];
  }
}
