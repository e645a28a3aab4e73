/**
 The text form of an array of strings and NULLs: the printer of the wire protocol and the
 parser of array literals, as in section 8.15.6 of the PostgreSQL manual.
 */
module ArrayText {
  import opened Values

  /** None is NULL. */
  type Element = Option<string>

  datatype ParseError = NotEnclosed | ExtraText | NestedArray | Malformed | TooLong

  datatype Parsed<T> = Yes(value: T) | No(error: ParseError)

  const MAX_ARRAY_LENGTH: nat := 0x7FFF_FFFF

  // ---------------------------------------------------------------------------
  // Printing
  // ---------------------------------------------------------------------------

  predicate ForcesQuotes(c: char) {
    || c == ' ' || c == '\t' || c == '\U{0B}' || c == '\U{0C}' || c == '\r' || c == '\n'
    || c == '{' || c == '}' || c == ',' || c == '"' || c == '\\'
  }

  predicate IsNullWord(x: string) {
    && |x| == 4
    && (x[0] == 'n' || x[0] == 'N') && (x[1] == 'u' || x[1] == 'U')
    && (x[2] == 'l' || x[2] == 'L') && (x[3] == 'l' || x[3] == 'L')
  }

  /** pgwireQuoteStringInArray. */
  predicate Quoted(x: string) { x == [] || (exists i | 0 <= i < |x| :: ForcesQuotes(x[i])) || IsNullWord(x) }

  predicate IsEscaped(c: char) { c == '"' || c == '\\' }

  function Escape(x: string): string {
    if x == [] then [] else (if IsEscaped(x[0]) then ['\\', x[0]] else [x[0]]) + Escape(x[1..])
  }

  function Text(e: Element): string {
    match e
    case None => "NULL"
    case Some(x) => if Quoted(x) then "\"" + Escape(x) + "\"" else Escape(x)
  }

  /** The elements from i on, each with what stands before it. */
  function Items(arr: seq<Element>, i: nat): string
    decreases |arr| - i
  {
    if i >= |arr| then [] else (if i == 0 then [] else ",") + Text(arr[i]) + Items(arr, i + 1)
  }

  function Print(arr: seq<Element>): string { "{" + Items(arr, 0) + "}" }

  // ---------------------------------------------------------------------------
  // Parsing
  // ---------------------------------------------------------------------------

  /** unicode.IsSpace. */
  predicate IsSpace(c: char) {
    || '\t' <= c <= '\r' || c == ' ' || c == '\U{85}' || c == '\U{A0}' || c == '\U{1680}'
    || '\U{2000}' <= c <= '\U{200A}' || c == '\U{2028}' || c == '\U{2029}' || c == '\U{202F}'
    || c == '\U{205F}' || c == '\U{3000}'
  }

  function SkipSpace(s: string): (t: string)
    ensures |t| <= |s| && (t == [] || !IsSpace(t[0]))
  {
    if s != [] && IsSpace(s[0]) then SkipSpace(s[1..]) else s
  }

  function TrimRight(s: string): string {
    if s != [] && IsSpace(s[|s| - 1]) then TrimRight(s[..|s| - 1]) else s
  }

  /** strings.TrimSpace. */
  function Trim(s: string): string { TrimRight(SkipSpace(s)) }

  /** isQuoteChar and isControlChar. */
  predicate Ends(c: char, quoted: bool) { c == '"' || (!quoted && (c == '{' || c == '}' || c == ',')) }

  /** The characters up to the one that ends the string, without the backslashes, and the rest. */
  function Gobble(s: string, quoted: bool): (r: Option<(string, string)>)
    ensures r.Some? ==> r.value.1 != [] && Ends(r.value.1[0], quoted) && |r.value.1| <= |s|
  {
    if s == [] then None
    else if Ends(s[0], quoted) then Some(([], s))
    else if s[0] != '\\' then Cons(s[0], Gobble(s[1..], quoted))
    else if |s| == 1 then None
    else Cons(s[1], Gobble(s[2..], quoted))
  }

  function Cons(c: char, r: Option<(string, string)>): Option<(string, string)> {
    match r
    case None => None
    case Some((out, rest)) => Some(([c] + out, rest))
  }

  /** parseElement: one element and what follows it. */
  function ReadElement(s: string): (r: Parsed<(Element, string)>)
    ensures r.Yes? ==> |r.value.1| <= |s|
  {
    if s != [] && s[0] == '{' then No(NestedArray)
    else if s != [] && s[0] == '"' then
      match Gobble(s[1..], true)
      case None => No(Malformed)
      case Some((out, rest)) => Yes((Some(out), rest[1..]))
    else if s != [] && (s[0] == '}' || s[0] == ',') then No(Malformed)
    else
      match Gobble(s, false)
      case None => No(Malformed)
      case Some((out, rest)) => Yes((if IsNullWord(Trim(out)) then None else Some(Trim(out)), rest))
  }

  /** The elements after a comma, as long as there is one. */
  function ReadMore(s: string, acc: seq<Element>): Parsed<(seq<Element>, string)>
    decreases |s|
  {
    if s == [] || s[0] != ',' then Yes((acc, s))
    else match ReadElement(SkipSpace(s[1..]))
      case No(e) => No(e)
      case Yes((e, rest)) => if |acc| >= MAX_ARRAY_LENGTH then No(TooLong) else ReadMore(rest, acc + [e])
  }

  /** Everything between the braces. */
  function ReadItems(s: string): Parsed<(seq<Element>, string)> {
    if s != [] && s[0] == '}' then Yes(([], s))
    else match ReadElement(s)
      case No(e) => No(e)
      case Yes((e, rest)) => ReadMore(SkipSpace(rest), [e])
  }

  /** What has to follow the last element. */
  function Close(arr: seq<Element>, rest: string): Parsed<seq<Element>> {
    var t := SkipSpace(rest);
    if t == [] then No(NotEnclosed)
    else if t[0] != '}' then No(Malformed)
    else if SkipSpace(t[1..]) != [] then No(ExtraText)
    else Yes(arr)
  }

  /** doParseDArrayFromString, for an array of strings. */
  function Parse(s: string): Parsed<seq<Element>> {
    var t := SkipSpace(s);
    if t == [] || t[0] != '{' then No(NotEnclosed)
    else match ReadItems(SkipSpace(t[1..]))
      case No(e) => No(e)
      case Yes((arr, rest)) => Close(arr, rest)
  }

  // ---------------------------------------------------------------------------
  // One element, read back
  // ---------------------------------------------------------------------------

  /** An element that is printed without quotes and is nothing but space to the parser. */
  predicate Blank(e: Element) { e.Some? && !Quoted(e.value) && SkipSpace(e.value) == [] }

  /** What the parser makes of an element. */
  function ReadBack(e: Element): Element {
    match e
    case None => None
    case Some(x) => if Quoted(x) then e else if IsNullWord(Trim(x)) then None else Some(Trim(x))
  }

  /** What may follow an element. */
  predicate IsTail(t: string) { t != [] && (t[0] == ',' || t[0] == '}') }

  lemma {:induction false} GobbleChar(c: char, s: string, quoted: bool)
    requires !Ends(c, quoted) && c != '\\'
    ensures Gobble([c] + s, quoted) == Cons(c, Gobble(s, quoted))
  {
    assert ([c] + s)[1..] == s;
  }

  lemma {:induction false} GobbleBackslash(c: char, s: string, quoted: bool)
    ensures Gobble(['\\', c] + s, quoted) == Cons(c, Gobble(s, quoted))
  {
    assert (['\\', c] + s)[2..] == s;
  }

  lemma {:induction false} GobbleEscaped(x: string, t: string)
    requires t != [] && t[0] == '"'
    ensures Gobble(Escape(x) + t, true) == Some((x, t))
  {
    if x == [] {
      assert Escape(x) + t == t;
    } else {
      hide Gobble;
      GobbleEscaped(x[1..], t);
      var s := Escape(x[1..]) + t;
      assert [x[0]] + x[1..] == x;
      if IsEscaped(x[0]) {
        assert Escape(x) + t == ['\\', x[0]] + s;
        GobbleBackslash(x[0], s, true);
      } else {
        assert Escape(x) + t == [x[0]] + s;
        GobbleChar(x[0], s, true);
      }
    }
  }

  /** No character that forces quotes. */
  predicate Bare(x: string) { forall i | 0 <= i < |x| :: !ForcesQuotes(x[i]) }

  lemma {:induction false} EscapeBare(x: string)
    requires Bare(x)
    ensures Escape(x) == x
  {
    if x != [] {
      assert Bare(x[1..]);
      EscapeBare(x[1..]);
      assert !ForcesQuotes(x[0]);
      assert [x[0]] + x[1..] == x;
    }
  }

  lemma {:induction false} GobbleBare(x: string, t: string)
    requires Bare(x) && IsTail(t)
    ensures Gobble(x + t, false) == Some((x, t))
  {
    if x == [] {
      assert x + t == t;
    } else {
      assert Bare(x[1..]);
      GobbleBare(x[1..], t);
      assert !ForcesQuotes(x[0]);
      assert (x + t)[0] == x[0] && (x + t)[1..] == x[1..] + t;
      assert [x[0]] + x[1..] == x;
    }
  }

  lemma {:induction false} SkipSpaceThrough(x: string, t: string)
    requires Bare(x) && IsTail(t)
    ensures SkipSpace(x + t) == SkipSpace(x) + t && Bare(SkipSpace(x))
  {
    if x == [] {
      assert x + t == t;
      NoSpace(t);
    } else if IsSpace(x[0]) {
      assert Bare(x[1..]);
      SkipSpaceThrough(x[1..], t);
      assert (x + t)[1..] == x[1..] + t;
    }
  }

  lemma {:induction false} SkipSpaceAgain(s: string)
    ensures SkipSpace(SkipSpace(s)) == SkipSpace(s)
  {
  }

  /** The parser, at the text of an element that something follows. */
  lemma {:induction false} ElementReads(e: Element, t: string)
    requires IsTail(t)
    ensures var s := SkipSpace(Text(e) + t);
            if Blank(e) then s == t else s != [] && s[0] != '}' && ReadElement(s) == Yes((ReadBack(e), t))
  {
    hide Gobble, SkipSpace, Escape;
    match e
    case None =>
      NullReads(t);
    case Some(x) =>
      if Quoted(x) {
        var s := Text(e) + t;
        var r := "\"" + t;
        assert s[0] == '"' && s[1..] == Escape(x) + r;
        GobbleEscaped(x, r);
        NoSpace(s);
        assert r[1..] == t;
      } else {
        EscapeBare(x);
        SkipSpaceThrough(x, t);
        var y := SkipSpace(x);
        GobbleBare(y, t);
        SkipSpaceAgain(x);
        if y == [] {
          assert y + t == t;
        } else {
          assert (y + t)[0] == y[0] && !ForcesQuotes(y[0]);
        }
      }
  }

  lemma {:induction false} NoSpace(s: string)
    requires s != [] && !IsSpace(s[0])
    ensures SkipSpace(s) == s
  {
  }

  lemma {:induction false} NullReads(t: string)
    requires IsTail(t)
    ensures SkipSpace("NULL" + t) == "NULL" + t && ReadElement("NULL" + t) == Yes((None, t))
  {
    GobbleBare("NULL", t);
    assert SkipSpace("NULL") == "NULL" && TrimRight("NULL") == "NULL";
  }

  // ---------------------------------------------------------------------------
  // The whole array
  // ---------------------------------------------------------------------------

  predicate NoBlank(arr: seq<Element>, i: nat) { forall j | i <= j < |arr| :: !Blank(arr[j]) }

  function ReadAll(arr: seq<Element>): seq<Element> { seq(|arr|, k requires 0 <= k < |arr| => ReadBack(arr[k])) }

  lemma {:induction false} ItemsTail(arr: seq<Element>, i: nat)
    requires i > 0
    ensures IsTail(Items(arr, i) + "}")
  {
  }

  /** The parser, at the comma before element i. */
  lemma {:induction false} MoreReads(arr: seq<Element>, i: nat)
    requires 0 < i <= |arr|
    ensures var r := ReadMore(Items(arr, i) + "}", ReadAll(arr)[..i]);
            if |arr| > MAX_ARRAY_LENGTH then i < |arr| ==> r.No?
            else r == if NoBlank(arr, i) then Yes((ReadAll(arr), "}")) else No(Malformed)
    decreases |arr| - i
  {
    hide ReadElement, SkipSpace, ReadBack, Text, Blank;
    var s := Items(arr, i) + "}";
    if i == |arr| {
      assert s == "}" && ReadAll(arr)[..i] == ReadAll(arr);
    } else {
      var t := Items(arr, i + 1) + "}";
      ItemsTail(arr, i + 1);
      assert s[0] == ',' && s[1..] == Text(arr[i]) + t;
      ElementReads(arr[i], t);
      if Blank(arr[i]) {
        TailIsNoElement(t);
      } else {
        assert ReadAll(arr)[..i] + [ReadBack(arr[i])] == ReadAll(arr)[..i + 1];
        MoreReads(arr, i + 1);
        assert NoBlank(arr, i) <==> NoBlank(arr, i + 1);
      }
    }
  }

  lemma {:induction false} TailIsNoElement(t: string)
    requires IsTail(t)
    ensures ReadElement(t) == No(Malformed)
  {
  }

  /** What the parser makes of the text of any array. */
  lemma {:induction false} ParsePrinted(arr: seq<Element>)
    ensures |arr| <= MAX_ARRAY_LENGTH ==>
              Parse(Print(arr)) == if |arr| == 1 && Blank(arr[0]) then Yes([])
                                   else if NoBlank(arr, 0) then Yes(ReadAll(arr))
                                   else No(Malformed)
    ensures |arr| > MAX_ARRAY_LENGTH ==> Parse(Print(arr)).No?
  {
    hide ReadElement, SkipSpace, ReadBack, Text, Blank, ReadMore;
    var s := Print(arr);
    assert s[0] == '{' && s[1..] == Items(arr, 0) + "}";
    NoSpace(s);
    Closed(arr);
    Closed([]);
    if arr == [] {
      assert s[1..] == "}";
      NoSpace("}");
      assert ReadAll(arr) == [];
    } else {
      var t := Items(arr, 1) + "}";
      assert s[1..] == Text(arr[0]) + t;
      ItemsTail(arr, 1);
      ElementReads(arr[0], t);
      NoSpace(t);
      if Blank(arr[0]) {
        TailIsNoElement(t);
        assert |arr| == 1 ==> t == "}";
      } else {
        assert [ReadBack(arr[0])] == ReadAll(arr)[..1];
        MoreReads(arr, 1);
        assert NoBlank(arr, 0) <==> NoBlank(arr, 1);
        Closed(ReadAll(arr));
      }
    }
  }

  lemma {:induction false} Closed(arr: seq<Element>)
    ensures Close(arr, "}") == Yes(arr)
  {
    assert SkipSpace("}") == "}" && "}"[1..] == [] && SkipSpace([]) == [];
  }

  /** Quoted, or with something other than space at both ends. */
  predicate Faithful(e: Element) {
    e.Some? && !Quoted(e.value) ==> !IsSpace(e.value[0]) && !IsSpace(e.value[|e.value| - 1])
  }

  lemma {:induction false} TrimShortens(s: string)
    ensures |TrimRight(s)| <= |s| && (TrimRight(s) == s <==> s == [] || !IsSpace(s[|s| - 1]))
  {
    if s != [] && IsSpace(s[|s| - 1]) { TrimShortens(s[..|s| - 1]); }
  }

  lemma {:induction false} ReadBackIsSame(e: Element)
    ensures ReadBack(e) == e && !Blank(e) <==> Faithful(e)
  {
    if e.Some? && !Quoted(e.value) {
      var x := e.value;
      TrimShortens(SkipSpace(x));
      assert SkipSpace(x) == x <==> !IsSpace(x[0]);
      if IsSpace(x[0]) { assert |SkipSpace(x)| < |x|; }
    }
  }

  /** An array comes back from its text exactly if each element is quoted or has no space around it. */
  lemma {:induction false} RoundTrip(arr: seq<Element>)
    ensures Parse(Print(arr)) == Yes(arr)
       <==> |arr| <= MAX_ARRAY_LENGTH && forall i | 0 <= i < |arr| :: Faithful(arr[i])
  {
    hide Parse, Print, ReadBack, Blank, Faithful;
    ParsePrinted(arr);
    forall i | 0 <= i < |arr| ensures ReadBack(arr[i]) == arr[i] && !Blank(arr[i]) <==> Faithful(arr[i]) {
      ReadBackIsSame(arr[i]);
    }
    if |arr| <= MAX_ARRAY_LENGTH && NoBlank(arr, 0) {
      if ReadAll(arr) == arr {
        forall i | 0 <= i < |arr| ensures Faithful(arr[i]) { assert ReadAll(arr)[i] == ReadBack(arr[i]); }
      }
    }
  }

  /** A no-break space before a letter is printed without quotes and lost in parsing. */
  lemma {:induction false} SpaceIsLost()
    ensures Parse(Print([Some(['\U{A0}', 'a'])])) == Yes([Some("a")])
  {
    var x := ['\U{A0}', 'a'];
    assert x[1..] == "a" && SkipSpace("a") == "a";
    assert SkipSpace(x) == "a" && TrimRight("a") == "a";
    assert ReadBack(Some(x)) == Some("a") && !Blank(Some(x));
    hide Parse, Print, ReadBack, Blank;
    ParsePrinted([Some(x)]);
    assert ReadAll([Some(x)]) == [Some("a")];
  }
}
