/**
 The wire text of a tuple of strings and NULLs, with a reference reader that shows it to be
 uniquely decodable once the number of fields is known.
 */
module TupleText {
  import opened Values

  /** None is NULL. */
  type Field = Option<string>

  predicate ForcesQuotes(c: char) {
    || c == ' ' || c == '\t' || c == '\U{0B}' || c == '\U{0C}' || c == '\r' || c == '\n'
    || c == '(' || c == ')' || c == ',' || c == '"' || c == '\\'
  }

  /** pgwireQuoteStringInTuple. */
  predicate Quoted(x: string) { x == [] || exists i | 0 <= i < |x| :: ForcesQuotes(x[i]) }

  predicate IsDoubled(c: char) { c == '"' || c == '\\' }

  function Double(x: string): string {
    if x == [] then [] else (if IsDoubled(x[0]) then [x[0], x[0]] else [x[0]]) + Double(x[1..])
  }

  function Text(f: Field): string {
    match f
    case None => []
    case Some(x) => if Quoted(x) then "\"" + Double(x) + "\"" else Double(x)
  }

  /** The fields from i on, each with what stands before it. */
  function Items(t: seq<Field>, i: nat): string
    decreases |t| - i
  {
    if i >= |t| then [] else (if i == 0 then [] else ",") + Text(t[i]) + Items(t, i + 1)
  }

  function Print(t: seq<Field>): string { "(" + Items(t, 0) + ")" }

  // ---------------------------------------------------------------------------
  // The printer as it runs
  // ---------------------------------------------------------------------------

  lemma {:induction false} DoubleAt(x: string, i: nat)
    requires i <= |x|
    ensures Double(x[i..]) == if i == |x| then [] else (if IsDoubled(x[i]) then [x[i], x[i]] else [x[i]]) + Double(x[i + 1..])
  {
    if i < |x| { assert x[i..][1..] == x[i + 1..]; }
  }

  /** The loop of pgwireFormatStringInTuple. */
  method FormatRunes(buf: string, x: string) returns (out: string)
    ensures out == buf + Double(x)
  {
    hide Double;
    out := buf;
    var i := 0;
    assert x[0..] == x;
    while i < |x|
      invariant 0 <= i <= |x|
      invariant out + Double(x[i..]) == buf + Double(x)
    {
      DoubleAt(x, i);
      if x[i] == '"' || x[i] == '\\' {
        out := out + [x[i], x[i]];
      } else {
        out := out + [x[i]];
      }
      i := i + 1;
    }
    DoubleAt(x, i);
    assert out == out + Double(x[i..]);
  }

  /** pgwireFormatStringInTuple: appends one string to the buffer. */
  method FormatString(buf: string, x: string) returns (out: string)
    ensures out == buf + Text(Some(x))
  {
    hide Double, Quoted;
    out := buf;
    var quote := Quoted(x);
    if quote {
      out := out + "\"";
    }
    out := FormatRunes(out, x);
    if quote {
      out := out + "\"";
      assert out == buf + ("\"" + Double(x) + "\"");
    }
  }

  /** DTuple.pgwireFormat, for strings. */
  method FormatTuple(t: seq<Field>) returns (buf: string)
    ensures buf == Print(t)
  {
    hide Text;
    buf := "(";
    var comma := "";
    for i := 0 to |t|
      invariant comma == if i == 0 then "" else ","
      invariant buf + Items(t, i) == "(" + Items(t, 0)
    {
      ghost var before := buf;
      buf := buf + comma;
      match t[i] {
        case None => NullText();
        case Some(x) => buf := FormatString(buf, x);
      }
      comma := ",";
      assert before + Items(t, i) == buf + Items(t, i + 1);
    }
    buf := buf + ")";
  }

  lemma {:induction false} NullText()
    ensures Text(None) == []
  {
  }

  // ---------------------------------------------------------------------------
  // The reader
  // ---------------------------------------------------------------------------

  function Cons(c: char, r: Option<(string, string)>): Option<(string, string)> {
    match r
    case None => None
    case Some((x, rest)) => Some(([c] + x, rest))
  }

  /** Up to a quote that is not doubled. */
  function ReadQuoted(s: string): Option<(string, string)> {
    if s == [] then None
    else if IsDoubled(s[0]) && |s| > 1 && s[1] == s[0] then Cons(s[0], ReadQuoted(s[2..]))
    else if s[0] == '"' then Some(([], s[1..]))
    else Cons(s[0], ReadQuoted(s[1..]))
  }

  predicate IsEnd(c: char) { c == ',' || c == ')' }

  /** Up to a comma or a closing parenthesis. */
  function ReadBare(s: string): Option<(string, string)> {
    if s == [] then None
    else if IsEnd(s[0]) then Some(([], s))
    else Cons(s[0], ReadBare(s[1..]))
  }

  function ReadField(s: string): Option<(Field, string)> {
    if s != [] && s[0] == '"' then
      match ReadQuoted(s[1..])
      case None => None
      case Some((x, rest)) => Some((Some(x), rest))
    else
      match ReadBare(s)
      case None => None
      case Some((x, rest)) => Some((if x == [] then None else Some(x), rest))
  }

  /** n fields and the closing parenthesis. */
  function ReadFields(s: string, n: nat): Option<seq<Field>>
    decreases n
  {
    if n == 0 then if s == ")" then Some([]) else None
    else match ReadField(s)
      case None => None
      case Some((f, rest)) =>
        if n == 1 then if rest == ")" then Some([f]) else None
        else if rest == [] || rest[0] != ',' then None
        else match ReadFields(rest[1..], n - 1)
          case None => None
          case Some(fs) => Some([f] + fs)
  }

  function Decode(s: string, n: nat): Option<seq<Field>> {
    if s == [] || s[0] != '(' then None else ReadFields(s[1..], n)
  }

  // ---------------------------------------------------------------------------
  // Reading back
  // ---------------------------------------------------------------------------

  predicate IsTail(t: string) { t != [] && IsEnd(t[0]) }

  lemma {:induction false} QuotedPair(c: char, s: string)
    requires IsDoubled(c)
    ensures ReadQuoted([c, c] + s) == Cons(c, ReadQuoted(s))
  {
    assert ([c, c] + s)[2..] == s;
  }

  lemma {:induction false} QuotedChar(c: char, s: string)
    requires !IsDoubled(c)
    ensures ReadQuoted([c] + s) == Cons(c, ReadQuoted(s))
  {
    assert ([c] + s)[1..] == s;
  }

  lemma {:induction false} QuotedReads(x: string, t: string)
    requires IsTail(t)
    ensures ReadQuoted(Double(x) + ("\"" + t)) == Some((x, t))
  {
    var q := "\"" + t;
    if x == [] {
      assert Double(x) + q == q && q[1..] == t && q[1] == t[0];
    } else {
      hide ReadQuoted;
      QuotedReads(x[1..], t);
      var s := Double(x[1..]) + q;
      assert [x[0]] + x[1..] == x;
      if IsDoubled(x[0]) {
        assert Double(x) + q == [x[0], x[0]] + s;
        QuotedPair(x[0], s);
      } else {
        assert Double(x) + q == [x[0]] + s;
        QuotedChar(x[0], s);
      }
    }
  }

  predicate Bare(x: string) { forall i | 0 <= i < |x| :: !ForcesQuotes(x[i]) }

  lemma {:induction false} BareReads(x: string, t: string)
    requires Bare(x) && IsTail(t)
    ensures Double(x) == x && ReadBare(x + t) == Some((x, t))
  {
    if x == [] {
      assert x + t == t;
    } else {
      assert Bare(x[1..]) && !ForcesQuotes(x[0]);
      BareReads(x[1..], t);
      assert [x[0]] + x[1..] == x && (x + t)[1..] == x[1..] + t;
    }
  }

  lemma {:induction false} FieldReads(f: Field, t: string)
    requires IsTail(t)
    ensures ReadField(Text(f) + t) == Some((f, t))
  {
    match f
    case None =>
      assert [] + t == t;
    case Some(x) =>
      if Quoted(x) {
        hide ReadQuoted, Double;
        var s := Text(f) + t;
        assert s[0] == '"' && s[1..] == Double(x) + ("\"" + t);
        QuotedReads(x, t);
      } else {
        hide ReadBare;
        BareReads(x, t);
        assert (x + t)[0] == x[0] && !ForcesQuotes(x[0]);
      }
  }

  lemma {:induction false} ItemsRead(t: seq<Field>, i: nat)
    requires i < |t|
    ensures ReadFields(Text(t[i]) + (Items(t, i + 1) + ")"), |t| - i) == Some(t[i..])
    decreases |t| - i
  {
    hide ReadField, Text;
    var rest := Items(t, i + 1) + ")";
    if i + 1 < |t| {
      var tail := Items(t, i + 2) + ")";
      assert rest[0] == ',' && rest[1..] == Text(t[i + 1]) + tail;
      FieldReads(t[i], rest);
      ItemsRead(t, i + 1);
      assert [t[i]] + t[i + 1..] == t[i..];
    } else {
      assert rest == ")";
      FieldReads(t[i], rest);
      assert t[i..] == [t[i]];
    }
  }

  /** Reading the text of a tuple with its own number of fields gives the tuple back. */
  lemma {:induction false} RoundTrip(t: seq<Field>)
    ensures Decode(Print(t), |t|) == Some(t)
  {
    hide Text, ReadField;
    var s := Print(t);
    if t == [] {
      assert s[1..] == ")";
    } else {
      assert s[1..] == Text(t[0]) + (Items(t, 1) + ")");
      ItemsRead(t, 0);
      assert t[0..] == t;
    }
  }

  /** So two tuples with the same number of fields and the same text are the same tuple. */
  lemma {:induction false} PrintIsInjective(t: seq<Field>, u: seq<Field>)
    requires |t| == |u| && Print(t) == Print(u)
    ensures t == u
  {
    hide Print, Decode;
    RoundTrip(t);
    RoundTrip(u);
  }

  /** The number of fields is not in the text: no field and one NULL are printed alike. */
  lemma {:induction false} ArityIsNotPrinted()
    ensures Print([]) == Print([None])
  {
    assert Items([None], 1) == [];
  }
}
