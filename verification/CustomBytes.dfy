/**
 The rewriting of custom escapes on bytes and on characters: on the UTF-8 encoding of a
 prepared pattern the two passes over bytes do what is done here character by character.
 */
module CustomBytes {
  import opened Values
  import opened LikeSpec
  import opened LikeRegex
  import opened CustomPattern
  import Bytes = CustomEscape

  type Byte = Bytes.byte

  function Code(c: char): (code: int)
    ensures Bytes.IsRune(code)
  {
    c as int
  }

  function EncodeChar(c: char): (bs: seq<Byte>)
    ensures 1 <= |bs| <= 4
  {
    Bytes.Encode(Code(c))
  }

  function Utf8(s: string): seq<Byte> {
    if s == [] then [] else EncodeChar(s[0]) + Utf8(s[1..])
  }

  // ---------------------------------------------------------------------------
  // Decoding what was encoded
  // ---------------------------------------------------------------------------

  lemma {:induction false} Recode(code: int)
    ensures Bytes.Code(code / 64, code % 64) == code
  {
  }

  lemma {:induction false} DecodeTwo(bs: seq<Byte>, i: nat, code: int)
    requires 0x80 <= code < 0x800 && i + 2 <= |bs| && bs[i..i + 2] == Bytes.Encode(code)
    ensures Bytes.Decode(bs, i) == Bytes.Rune(code, 2)
  {
    assert bs[i] == bs[i..i + 2][0] && bs[i + 1] == bs[i..i + 2][1];
    Recode(code);
  }

  lemma {:induction false} DecodeThree(bs: seq<Byte>, i: nat, code: int)
    requires 0x800 <= code < 0x10000 && Bytes.IsRune(code) && i + 3 <= |bs| && bs[i..i + 3] == Bytes.Encode(code)
    ensures Bytes.Decode(bs, i) == Bytes.Rune(code, 3)
  {
    assert bs[i] == bs[i..i + 3][0] && bs[i + 1] == bs[i..i + 3][1] && bs[i + 2] == bs[i..i + 3][2];
    Recode(code);
    Recode(code / 64);
  }

  lemma {:induction false} DecodeFour(bs: seq<Byte>, i: nat, code: int)
    requires 0x10000 <= code && Bytes.IsRune(code) && i + 4 <= |bs| && bs[i..i + 4] == Bytes.Encode(code)
    ensures Bytes.Decode(bs, i) == Bytes.Rune(code, 4)
  {
    var e := bs[i..i + 4];
    assert bs[i] == e[0] && bs[i + 1] == e[1] && bs[i + 2] == e[2] && bs[i + 3] == e[3];
    Recode(code);
    Recode(code / 64);
    Recode(code / 64 / 64);
  }

  lemma {:induction false} DecodeChar(bs: seq<Byte>, i: nat, c: char)
    requires i < |bs| && EncodeChar(c) <= bs[i..]
    ensures Bytes.Decode(bs, i) == Bytes.Rune(Code(c), |EncodeChar(c)|)
    ensures bs[i] == EncodeChar(c)[0]
  {
    var e := EncodeChar(c);
    var w := |e|;
    assert bs[i..i + w] == e;
    assert bs[i] == bs[i..][0] == e[0];
    hide Bytes.Decode, Bytes.Encode;
    EncodeWidth(Code(c));
    if w == 2 { DecodeTwo(bs, i, Code(c)); }
    else if w == 3 { DecodeThree(bs, i, Code(c)); }
    else if w == 4 { DecodeFour(bs, i, Code(c)); }
    else { DecodeOne(bs, i, Code(c)); }
  }

  lemma {:induction false} DecodeOne(bs: seq<Byte>, i: nat, code: int)
    requires 0 <= code < 0x80 && i < |bs| && bs[i] == code
    ensures Bytes.Decode(bs, i) == Bytes.Rune(code, 1)
  {
  }

  lemma {:induction false} EncodeWidth(code: int)
    requires Bytes.IsRune(code)
    ensures |Bytes.Encode(code)| == if code < 0x80 then 1 else if code < 0x800 then 2 else if code < 0x10000 then 3 else 4
    ensures code < 0x80 ==> Bytes.Encode(code) == [code]
    ensures code >= 0x80 ==> Bytes.Encode(code)[0] >= 0x80
  {
  }

  // ---------------------------------------------------------------------------
  // Bytes against characters
  // ---------------------------------------------------------------------------

  /** Read from the left, every backslash quotes a metacharacter. */
  predicate WellQuoted(s: string, e: char)
    decreases |s|
  {
    if s == [] then true
    else if s[0] == e then |s| == 1 || (if s[1] == e then WellQuoted(s[2..], e) else WellQuoted(s[1..], e))
    else if s[0] == BACKSLASH then |s| > 1 && IsMeta(s[1]) && WellQuoted(s[2..], e)
    else WellQuoted(s[1..], e)
  }

  function Encoded(o: Option<string>): Option<seq<Byte>> {
    match o
    case None => None
    case Some(s) => Some(Utf8(s))
  }

  function PutBytes(x: seq<Byte>, o: Option<seq<Byte>>): Option<seq<Byte>> {
    match o
    case None => None
    case Some(y) => Some(x + y)
  }

  lemma {:induction false} Utf8Append(x: string, y: string)
    ensures Utf8(x + y) == Utf8(x) + Utf8(y)
  {
    if x == [] {
      assert x + y == y;
    } else {
      assert (x + y)[1..] == x[1..] + y;
      Utf8Append(x[1..], y);
    }
  }

  lemma {:induction false} EncodedPut(x: string, o: Option<string>)
    ensures Encoded(Put(x, o)) == PutBytes(Utf8(x), Encoded(o))
  {
    if o.Some? { Utf8Append(x, o.value); }
  }

  lemma {:induction false} Ascii(c: char)
    ensures Code(c) < 0x80 ==> EncodeChar(c) == [Code(c)] == Utf8([c])
    ensures Code(c) >= 0x80 ==> EncodeChar(c)[0] >= 0x80
    ensures IsMeta(c) ==> Code(c) < 0x80
    ensures Utf8([c]) == EncodeChar(c)
  {
    EncodeWidth(Code(c));
    assert [c][1..] == [] && Utf8([]) == [];
  }

  lemma {:induction false} Utf8Quoted()
    ensures Utf8(QUOTED) == [Bytes.BACKSLASH, Bytes.BACKSLASH]
    ensures Utf8(QUOTED + QUOTED) == [Bytes.BACKSLASH, Bytes.BACKSLASH, Bytes.BACKSLASH, Bytes.BACKSLASH]
    ensures Code(BACKSLASH) == Bytes.BACKSLASH
  {
    Ascii(BACKSLASH);
    assert QUOTED == [BACKSLASH] + [BACKSLASH];
    Utf8Append([BACKSLASH], [BACKSLASH]);
    Utf8Append(QUOTED, QUOTED);
  }

  /** The encoded text at position i begins with the character c. */
  lemma {:induction false} HeadAt(bs: seq<Byte>, i: nat, s: string)
    requires i <= |bs| && bs[i..] == Utf8(s) && s != []
    ensures i + |EncodeChar(s[0])| <= |bs|
    ensures Bytes.Decode(bs, i) == Bytes.Rune(Code(s[0]), |EncodeChar(s[0])|)
    ensures bs[i] == EncodeChar(s[0])[0]
    ensures bs[i + |EncodeChar(s[0])|..] == Utf8(s[1..])
    ensures bs[i..i + |EncodeChar(s[0])|] == EncodeChar(s[0])
  {
    var x, y := EncodeChar(s[0]), Utf8(s[1..]);
    assert bs[i..] == x + y;
    DecodeChar(bs, i, s[0]);
    assert bs[i + |x|..] == bs[i..][|x|..] == y;
    assert bs[i..i + |x|] == bs[i..][..|x|] == x;
  }

  lemma {:induction false} NoBytesLeft(bs: seq<Byte>, i: nat, s: string)
    requires i <= |bs| && bs[i..] == Utf8(s)
    ensures i == |bs| <==> s == []
  {
    if s != [] { assert |Utf8(s)| > 0; }
  }

  /** One step over bytes is one step over characters. */
  ghost predicate SameStep(bs: seq<Byte>, i: nat, s: string, e: char, x: string, n: nat)
    requires i < |bs| && n <= |s|
  {
    var r := Bytes.StepAt(bs, i, Code(e));
    && r.Emit? && r.bytes == Utf8(x) && !Bytes.IsShort(r)
    && i + r.width <= |bs| && bs[i + r.width..] == Utf8(s[n..])
  }

  lemma {:induction false} EscapeStep(bs: seq<Byte>, i: nat, s: string, e: char)
    requires i < |bs| && bs[i..] == Utf8(s) && s != [] && s[0] == e
    ensures |s| == 1 ==> Bytes.StepAt(bs, i, Code(e)) == Bytes.Fail
    ensures |s| > 1 ==> if s[1] == e then SameStep(bs, i, s, e, [e], 2) else SameStep(bs, i, s, e, QUOTED, 1)
  {
    hide Utf8, Bytes.Decode, Bytes.Encode;
    HeadAt(bs, i, s);
    var w := |EncodeChar(e)|;
    NoBytesLeft(bs, i + w, s[1..]);
    Utf8Quoted();
    Ascii(e);
    if |s| > 1 {
      HeadAt(bs, i + w, s[1..]);
      assert s[1..][0] == s[1] && s[1..][1..] == s[2..];
    }
  }

  lemma {:induction false} QuoteStepBytes(bs: seq<Byte>, i: nat, s: string, e: char)
    requires i < |bs| && bs[i..] == Utf8(s) && |s| > 1 && s[0] == BACKSLASH != e && IsMeta(s[1]) && !IsMeta(e)
    ensures SameStep(bs, i, s, e, if s[1] == BACKSLASH then QUOTED + QUOTED else [BACKSLASH, s[1]], 2)
  {
    HeadAt(bs, i, s);
    Utf8Quoted();
    Ascii(BACKSLASH);
    Ascii(s[1]);
    HeadAt(bs, i + 1, s[1..]);
    assert s[1..][0] == s[1] && s[1..][1..] == s[2..];
    assert [BACKSLASH, s[1]] == [BACKSLASH] + [s[1]];
    Utf8Append([BACKSLASH], [s[1]]);
  }

  lemma {:induction false} CharStepBytes(bs: seq<Byte>, i: nat, s: string, e: char)
    requires i < |bs| && bs[i..] == Utf8(s) && s != [] && s[0] != e && s[0] != BACKSLASH
    ensures SameStep(bs, i, s, e, [s[0]], 1)
  {
    HeadAt(bs, i, s);
    Ascii(s[0]);
    Utf8Quoted();
  }

  lemma {:induction false} FollowStep(bs: seq<Byte>, i: nat, s: string, e: char, x: string, n: nat)
    requires i < |bs| && 0 < n <= |s| && SameStep(bs, i, s, e, x, n)
    requires WellQuoted(s[n..], e) && !IsMeta(e)
    ensures Bytes.Rewritten(bs, i, Code(e)) == Encoded(Put(x, Custom(s[n..], e))) && !Bytes.HasShort(bs, i, Code(e))
    decreases |s|, 0
  {
    hide Bytes.StepAt, Bytes.Rewritten, Bytes.HasShort, Bytes.Counted, Bytes.Changes, Custom, Utf8, WellQuoted;
    Bytes.Unfold(bs, i, Code(e));
    var w := Bytes.StepAt(bs, i, Code(e)).width;
    BytesAgree(bs, i + w, s[n..], e);
    EncodedPut(x, Custom(s[n..], e));
  }

  /** The passes over bytes rewrite the encoding of a well-quoted pattern to the encoding of the result. */
  lemma {:induction false} BytesAgree(bs: seq<Byte>, i: nat, s: string, e: char)
    requires i <= |bs| && bs[i..] == Utf8(s) && WellQuoted(s, e) && !IsMeta(e)
    ensures Bytes.Rewritten(bs, i, Code(e)) == Encoded(Custom(s, e)) && !Bytes.HasShort(bs, i, Code(e))
    decreases |s|, 1
  {
    NoBytesLeft(bs, i, s);
    if s == [] {
    } else if s[0] == e {
      EscapeStep(bs, i, s, e);
      if |s| == 1 {
      } else if s[1] == e {
        FollowStep(bs, i, s, e, [e], 2);
      } else {
        FollowStep(bs, i, s, e, QUOTED, 1);
      }
    } else if s[0] == BACKSLASH {
      QuoteStepBytes(bs, i, s, e);
      FollowStep(bs, i, s, e, if s[1] == BACKSLASH then QUOTED + QUOTED else [BACKSLASH, s[1]], 2);
    } else {
      CharStepBytes(bs, i, s, e);
      FollowStep(bs, i, s, e, [s[0]], 1);
    }
  }

  // ---------------------------------------------------------------------------
  // Prepared patterns
  // ---------------------------------------------------------------------------

  lemma {:induction false} QuotedWell(c: char, y: string, e: char)
    requires c != e && !IsMeta(e) && WellQuoted(y, e)
    ensures WellQuoted(QuoteChar(c) + y, e)
  {
    var s := QuoteChar(c) + y;
    if IsMeta(c) {
      assert s[0] == BACKSLASH && s[1] == c && s[2..] == y;
    } else {
      assert s[0] == c && s[1..] == y;
    }
  }

  lemma {:induction false} CharWell(c: char, y: string, e: char)
    requires c != e && c != BACKSLASH && WellQuoted(y, e)
    ensures WellQuoted([c] + y, e)
  {
    assert ([c] + y)[1..] == y;
  }

  lemma {:induction false} EscapeWell(c: char, y: string, e: char)
    requires !IsMeta(e) && WellQuoted(y, e)
    ensures WellQuoted([e] + QuoteChar(c) + y, e)
  {
    var s, z := [e] + QuoteChar(c) + y, QuoteChar(c) + y;
    assert s[1..] == z && z[0] == QuoteChar(c)[0];
    if c == e {
      assert s[2..] == y;
    } else {
      QuotedWell(c, y, e);
      assert z[0] != e;
    }
  }

  lemma {:induction false} FreedIsWellQuoted(u: Units, e: char)
    requires !IsMeta(e) && NoPlain(u, e)
    ensures WellQuoted(FreedImage(u, e), e)
  {
    match u
    case End =>
    case Dangling =>
    case Plain(c, r) =>
      FreedIsWellQuoted(r, e);
      var y := FreedImage(r, e);
      if c == '%' {
        CharWell('*', y, e);
        CharWell('.', ['*'] + y, e);
        assert ".*" + y == ['.'] + (['*'] + y);
      } else if c == '_' {
        CharWell('.', y, e);
      } else {
        QuotedWell(c, y, e);
      }
    case Escaped(c, r) =>
      FreedIsWellQuoted(r, e);
      if c == BACKSLASH { QuotedWell(c, FreedImage(r, e), e); } else { EscapeWell(c, FreedImage(r, e), e); }
  }

  /** So on bytes too the conversion is what it is on characters, U+FFFD as escape character included. */
  lemma {:induction false} PreparedOnBytes(p: string, e: char)
    requires !IsMeta(e)
    ensures Bytes.Replaced(Utf8(Prepared(p, e)), Code(e))
         == match Custom(Prepared(p, e), e)
            case None => Bytes.InvalidEscape
            case Some(s) => Bytes.Done(Utf8(s))
  {
    hide Prepared, Custom, Utf8, WellQuoted, Bytes.Rewritten, Bytes.HasShort, Bytes.Replaced;
    ParseNoPlain(p, e);
    PreparedIsFreed(p, e);
    FreedIsWellQuoted(Parse(p, e), e);
    var bs := Utf8(Prepared(p, e));
    assert bs[0..] == bs;
    BytesAgree(bs, 0, Prepared(p, e), e);
    Bytes.PassesAgree(bs, Code(e));
  }
}
