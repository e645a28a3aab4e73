/** The printer and the parser of array text as they run: a growing buffer and a shrinking input. */
module ArrayParser {
  import opened Values
  import opened ArrayText

  lemma {:induction false} EscapeAt(x: string, i: nat)
    requires i <= |x|
    ensures Escape(x[i..]) == if i == |x| then [] else (if IsEscaped(x[i]) then ['\\', x[i]] else [x[i]]) + Escape(x[i + 1..])
  {
    if i < |x| { assert x[i..][1..] == x[i + 1..]; }
  }

  /** The loop of pgwireFormatStringInArray. */
  method FormatRunes(buf: string, x: string) returns (out: string)
    ensures out == buf + Escape(x)
  {
    hide Escape;
    out := buf;
    var i := 0;
    assert x[0..] == x;
    while i < |x|
      invariant 0 <= i <= |x|
      invariant out + Escape(x[i..]) == buf + Escape(x)
    {
      EscapeAt(x, i);
      if x[i] == '"' || x[i] == '\\' {
        out := out + ['\\', x[i]];
      } else {
        out := out + [x[i]];
      }
      i := i + 1;
    }
    EscapeAt(x, i);
    assert out == out + Escape(x[i..]);
  }

  /** pgwireFormatStringInArray: appends one string to the buffer. */
  method FormatString(buf: string, x: string) returns (out: string)
    ensures out == buf + Text(Some(x))
  {
    hide Escape, Quoted;
    out := buf;
    var quote := Quoted(x);
    if quote {
      out := out + "\"";
    }
    out := FormatRunes(out, x);
    if quote {
      out := out + "\"";
      assert out == buf + ("\"" + Escape(x) + "\"");
    }
  }

  /** DArray.pgwireFormat, for an array of strings. */
  method FormatArray(arr: seq<Element>) returns (buf: string)
    ensures buf == Print(arr)
  {
    hide Text;
    buf := "{";
    var comma := "";
    for i := 0 to |arr|
      invariant comma == if i == 0 then "" else ","
      invariant buf + Items(arr, i) == "{" + Items(arr, 0)
    {
      ghost var before := buf;
      buf := buf + comma;
      match arr[i] {
        case None =>
          buf := buf + "NULL";
          NullText();
        case Some(x) =>
          buf := FormatString(buf, x);
      }
      comma := ",";
      assert before + Items(arr, i) == buf + Items(arr, i + 1);
    }
    buf := buf + "}";
  }

  lemma {:induction false} NullText()
    ensures Text(None) == "NULL"
  {
  }

  /** parseState: what is left to read, and the elements so far. */
  class ParseState {
    var s: string
    var result: seq<Element>

    constructor (text: string)
      ensures s == text && result == []
    {
      s := text;
      result := [];
    }

    method EatWhitespace()
      modifies this`s
      ensures s == SkipSpace(old(s))
    {
      while s != [] && IsSpace(s[0])
        invariant SkipSpace(s) == SkipSpace(old(s))
        decreases |s|
      {
        s := s[1..];
      }
    }

    /** Advances to the terminating character; on an error nothing is consumed. */
    method GobbleString(quoted: bool) returns (r: Option<string>)
      modifies this`s
      ensures r.None? <==> Gobble(old(s), quoted).None?
      ensures if r.None? then s == old(s) else Gobble(old(s), quoted) == Some((r.value, s))
    {
      var out, start, i := "", 0, 0;
      assert out + s[0..0] == [] && s[0..] == s;
      PrependNothing(Gobble(s, quoted));
      hide Gobble, Ends;
      while i < |s| && !Ends(s[i], quoted)
        invariant 0 <= start <= i <= |s| && s == old(s)
        invariant Gobble(s, quoted) == Prepend(out + s[start..i], Gobble(s[i..], quoted))
      {
        GobbleAt(s, i, quoted);
        if s[i] == '\\' {
          out := out + s[start..i];
          i := i + 1;
          if i < |s| {
            out := out + [s[i]];
            i := i + 1;
          }
          start := i;
          assert out + s[start..i] == out;
        } else {
          assert out + s[start..i] + [s[i]] == out + s[start..i + 1];
          i := i + 1;
        }
      }
      if i >= |s| {
        GobbleEnd(s, i, quoted);
        return None;
      }
      GobbleEnd(s, i, quoted);
      r := Some(out + s[start..i]);
      s := s[i..];
    }

    /** parseElement: None for success. The element is appended and what follows it is left. */
    method ParseElement() returns (err: Option<ParseError>)
      modifies this
      ensures match ReadElement(old(s))
              case No(e) => err == Some(e) && result == old(result)
              case Yes((e, rest)) =>
                && s == rest
                && (if |old(result)| >= MAX_ARRAY_LENGTH then err == Some(TooLong) && result == old(result)
                    else err == None && result == old(result) + [e])
    {
      hide Gobble, Trim;
      if s != [] && s[0] == '{' {
        return Some(NestedArray);
      }
      var next;
      if s != [] && s[0] == '"' {
        s := s[1..];
        next := GobbleString(true);
        if next.None? { return Some(Malformed); }
        s := s[1..];
      } else {
        if s != [] && (s[0] == '}' || s[0] == ',') {
          return Some(Malformed);
        }
        next := GobbleString(false);
        if next.None? { return Some(Malformed); }
        next := Some(Trim(next.value));
        if IsNullWord(next.value) { next := None; }
      }
      err := Append(next);
    }

    method Append(e: Element) returns (err: Option<ParseError>)
      modifies this`result
      ensures if |old(result)| >= MAX_ARRAY_LENGTH then err == Some(TooLong) && result == old(result)
              else err == None && result == old(result) + [e]
    {
      if |result| >= MAX_ARRAY_LENGTH { return Some(TooLong); }
      result := result + [e];
      return None;
    }
  }

  function Prepend(x: string, r: Option<(string, string)>): Option<(string, string)> {
    match r
    case None => None
    case Some((out, rest)) => Some((x + out, rest))
  }

  lemma {:induction false} PrependNothing(r: Option<(string, string)>)
    ensures Prepend([], r) == r
  {
    if r.Some? { assert [] + r.value.0 == r.value.0; }
  }

  lemma {:induction false} GobbleEnd(s: string, i: nat, quoted: bool)
    requires i <= |s|
    ensures i == |s| ==> Gobble(s[i..], quoted) == None
    ensures i < |s| && Ends(s[i], quoted) ==> forall x :: Prepend(x, Gobble(s[i..], quoted)) == Some((x, s[i..]))
  {
    if i < |s| && Ends(s[i], quoted) {
      assert Gobble(s[i..], quoted) == Some(([], s[i..]));
      forall x: string ensures Prepend(x, Gobble(s[i..], quoted)) == Some((x, s[i..])) { assert x + [] == x; }
    }
  }

  /** One round of gobbleString. */
  lemma {:induction false} GobbleAt(s: string, i: nat, quoted: bool)
    requires i < |s| && !Ends(s[i], quoted)
    ensures s[i] != '\\' ==> forall x :: Prepend(x, Gobble(s[i..], quoted)) == Prepend(x + [s[i]], Gobble(s[i + 1..], quoted))
    ensures s[i] == '\\' && i + 1 < |s| ==>
              forall x :: Prepend(x, Gobble(s[i..], quoted)) == Prepend(x + [s[i + 1]], Gobble(s[i + 2..], quoted))
    ensures s[i] == '\\' && i + 1 == |s| ==> Gobble(s[i..], quoted) == None && Gobble(s[i + 1..], quoted) == None
  {
    assert s[i..][1..] == s[i + 1..];
    if i + 1 < |s| { assert s[i..][2..] == s[i + 2..]; }
    var r := if s[i] != '\\' then Gobble(s[i + 1..], quoted) else if i + 1 < |s| then Gobble(s[i + 2..], quoted) else None;
    if r.Some? {
      var out := r.value.0;
      assert forall x: string, c: char :: x + ([c] + out) == x + [c] + out;
    }
  }

  /** doParseDArrayFromString, for an array of strings. */
  method ParseArray(text: string) returns (r: Parsed<seq<Element>>)
    ensures r == Parse(text)
  {
    hide SkipSpace, ReadElement;
    var parser := new ParseState(text);
    parser.EatWhitespace();
    if parser.s == [] || parser.s[0] != '{' {
      return No(NotEnclosed);
    }
    parser.s := parser.s[1..];
    parser.EatWhitespace();
    ghost var items := parser.s;
    if parser.s == [] || parser.s[0] != '}' {
      var err := parser.ParseElement();
      if err.Some? { return No(err.value); }
      assert [] + [ReadElement(items).value.0] == [ReadElement(items).value.0];
      parser.EatWhitespace();
      ghost var first := ReadMore(parser.s, parser.result);
      assert first == ReadItems(items);
      while parser.s != [] && parser.s[0] == ','
        invariant ReadMore(parser.s, parser.result) == first
        decreases |parser.s|
      {
        parser.s := parser.s[1..];
        parser.EatWhitespace();
        err := parser.ParseElement();
        if err.Some? { return No(err.value); }
      }
    }
    assert ReadItems(items) == Yes((parser.result, parser.s));
    parser.EatWhitespace();
    if parser.s == [] {
      return No(NotEnclosed);
    }
    if parser.s[0] != '}' {
      return No(Malformed);
    }
    parser.s := parser.s[1..];
    parser.EatWhitespace();
    if parser.s != [] {
      return No(ExtraText);
    }
    return Yes(parser.result);
  }
}
