/**
 Custom escape characters of LIKE, on the bytes of a quoted pattern: one pass computes the
 length of the rewritten pattern and finds the errors, a second pass writes it. The two
 passes repeat each other's case analysis and must stay in step.
 */
module CustomEscape {
  import opened Values

  type byte = x: int | 0 <= x < 256

  /** What decoding reports for bytes that are not UTF-8; also a character of its own. */
  const RUNE_ERROR: int := 0xFFFD

  const BACKSLASH: byte := 92

  // ---------------------------------------------------------------------------
  // UTF-8
  // ---------------------------------------------------------------------------

  datatype Rune = Rune(code: int, width: nat)

  predicate Continues(b: byte) { 0x80 <= b <= 0xBF }

  /** Which second bytes may follow a lead byte of three or four bytes. */
  predicate Second(lead: byte, b: byte) {
    Continues(b) &&
    (lead == 0xE0 ==> b >= 0xA0) && (lead == 0xED ==> b <= 0x9F) &&
    (lead == 0xF0 ==> b >= 0x90) && (lead == 0xF4 ==> b <= 0x8F)
  }

  /** The six bits of a continuation byte, and a code with six more bits. */
  function Low(b: byte): int { b as int - 0x80 }

  function Code(high: int, low: int): int { high * 64 + low }

  /** utf8.DecodeRuneInString at position i: the rune there, or RUNE_ERROR and one byte. */
  function Decode(s: seq<byte>, i: nat): (r: Rune)
    requires i < |s|
    ensures 1 <= r.width <= 4 && i + r.width <= |s|
  {
    var b := s[i];
    if b < 0x80 then Rune(b, 1)
    else if 0xC2 <= b <= 0xDF && i + 1 < |s| && Continues(s[i + 1]) then
      Rune(Code(b - 0xC0, Low(s[i + 1])), 2)
    else if 0xE0 <= b <= 0xEF && i + 2 < |s| && Second(b, s[i + 1]) && Continues(s[i + 2]) then
      Rune(Code(Code(b - 0xE0, Low(s[i + 1])), Low(s[i + 2])), 3)
    else if 0xF0 <= b <= 0xF4 && i + 3 < |s| && Second(b, s[i + 1]) && Continues(s[i + 2]) && Continues(s[i + 3]) then
      Rune(Code(Code(Code(b - 0xF0, Low(s[i + 1])), Low(s[i + 2])), Low(s[i + 3])), 4)
    else Rune(RUNE_ERROR, 1)
  }

  predicate IsRune(code: int) { 0 <= code < 0xD800 || 0xE000 <= code <= 0x10FFFF }

  /** utf8.EncodeRune. */
  function Encode(code: int): (bs: seq<byte>)
    requires IsRune(code)
    ensures 1 <= |bs| <= 4
  {
    if code < 0x80 then [code]
    else if code < 0x800 then [0xC0 + code / 64, 0x80 + code % 64]
    else if code < 0x10000 then [0xE0 + code / 64 / 64, 0x80 + code / 64 % 64, 0x80 + code % 64]
    else [0xF0 + code / 64 / 64 / 64, 0x80 + code / 64 / 64 % 64, 0x80 + code / 64 % 64, 0x80 + code % 64]
  }

  lemma {:induction false} CodeParts(high: int, low: int)
    requires 0 <= low < 64
    ensures Code(high, low) / 64 == high && Code(high, low) % 64 == low
  {
  }

  /** A rune that is not an error has been read from its own encoding. */
  lemma {:induction false} DecodeEncoded(s: seq<byte>, i: nat)
    requires i < |s| && Decode(s, i).code != RUNE_ERROR
    ensures IsRune(Decode(s, i).code) && Encode(Decode(s, i).code) == s[i..i + Decode(s, i).width]
  {
    hide Encode, Code;
    var w := Decode(s, i).width;
    var b := s[i];
    if w == 1 {
      OneByte(b);
      assert s[i..i + 1] == [b];
    } else if w == 2 {
      TwoBytes(b, s[i + 1]);
      assert s[i..i + 2] == [b, s[i + 1]];
    } else if w == 3 {
      ThreeBytes(b, s[i + 1], s[i + 2]);
      assert s[i..i + 3] == [b, s[i + 1], s[i + 2]];
    } else {
      FourBytes(b, s[i + 1], s[i + 2], s[i + 3]);
      assert s[i..i + 4] == [b, s[i + 1], s[i + 2], s[i + 3]];
    }
  }

  lemma {:induction false} OneByte(b: byte)
    requires b < 0x80
    ensures IsRune(b) && Encode(b) == [b]
  {
  }

  lemma {:induction false} TwoBytes(b: byte, c: byte)
    requires 0xC2 <= b <= 0xDF && Continues(c)
    ensures var code := Code(b - 0xC0, Low(c)); 0x80 <= code < 0x800 && IsRune(code) && Encode(code) == [b, c]
  {
    CodeParts(b - 0xC0, Low(c));
  }

  lemma {:induction false} ThreeBytes(b: byte, c: byte, d: byte)
    requires 0xE0 <= b <= 0xEF && Second(b, c) && Continues(d)
    ensures var code := Code(Code(b - 0xE0, Low(c)), Low(d));
            0x800 <= code < 0x10000 && IsRune(code) && Encode(code) == [b, c, d]
  {
    CodeParts(b - 0xE0, Low(c));
    CodeParts(Code(b - 0xE0, Low(c)), Low(d));
  }

  lemma {:induction false} FourBytes(b: byte, c: byte, d: byte, e: byte)
    requires 0xF0 <= b <= 0xF4 && Second(b, c) && Continues(d) && Continues(e)
    ensures var code := Code(Code(Code(b - 0xF0, Low(c)), Low(d)), Low(e));
            0x10000 <= code && IsRune(code) && Encode(code) == [b, c, d, e]
  {
    CodeParts(b - 0xF0, Low(c));
    CodeParts(Code(b - 0xF0, Low(c)), Low(d));
    CodeParts(Code(Code(b - 0xF0, Low(c)), Low(d)), Low(e));
  }

  /** So the same rune has the same width wherever it stands. */
  lemma {:induction false} SameWidth(s: seq<byte>, i: nat, esc: int)
    requires i < |s| && Decode(s, i).code == esc && esc != RUNE_ERROR
    ensures IsRune(esc) && Decode(s, i).width == |Encode(esc)|
  {
    DecodeEncoded(s, i);
  }

  // ---------------------------------------------------------------------------
  // The rewriting
  // ---------------------------------------------------------------------------

  /** What becomes of the bytes at one position: what is written, and how much room both passes
      count for it. */
  datatype Step = Fail | Emit(bytes: seq<byte>, room: nat, width: nat, changes: bool)

  function Copied(bytes: seq<byte>, width: nat, changes: bool): Step { Emit(bytes, |bytes|, width, changes) }

  function StepAt(s: seq<byte>, i: nat, esc: int): (r: Step)
    requires i < |s| && IsRune(esc)
    ensures r.Emit? ==> r.bytes != [] && r.room > 0 && r.width > 0
  {
    var rune := Decode(s, i);
    var w := rune.width;
    if rune.code == esc then
      if i + w == |s| then Fail                                                    // ends in the escape
      else if Decode(s, i + w).code == esc then Emit(Encode(esc), w, 2 * w, true)    // an escaped escape
      else Copied([BACKSLASH, BACKSLASH], w, true)                                  // an escape
    else if s[i] == BACKSLASH then
      if i + 1 == |s| then Fail
      else if s[i + 1] == BACKSLASH then Copied([BACKSLASH, BACKSLASH, BACKSLASH, BACKSLASH], 2, true)
      else if s[i + 1] == esc then                                                  // a quoted escape
        if i + 2 == |s| then Fail
        else if i + 4 <= |s| && s[i + 2] == BACKSLASH && s[i + 3] == esc
        then Copied([BACKSLASH, Encode(esc)[0]], 4, true)
        else Copied([BACKSLASH], 2, true)
      else Copied([BACKSLASH, s[i + 1]], 2, false)                                  // another quoted character
    else Copied(s[i..i + w], w, false)
  }

  /** The rewritten pattern from position i on, or None for an error. */
  function Rewritten(s: seq<byte>, i: nat, esc: int): Option<seq<byte>>
    requires IsRune(esc)
    decreases |s| - i
  {
    if i >= |s| then Some([])
    else match StepAt(s, i, esc)
      case Fail => None
      case Emit(bytes, _, width, _) =>
        match Rewritten(s, i + width, esc)
        case None => None
        case Some(rest) => Some(bytes + rest)
  }

  /** The room that is counted from position i on, or None for an error. */
  function Counted(s: seq<byte>, i: nat, esc: int): Option<nat>
    requires IsRune(esc)
    decreases |s| - i
  {
    if i >= |s| then Some(0)
    else match StepAt(s, i, esc)
      case Fail => None
      case Emit(_, room, width, _) =>
        match Counted(s, i + width, esc)
        case None => None
        case Some(rest) => Some(room + rest)
  }

  predicate Changes(s: seq<byte>, i: nat, esc: int)
    requires IsRune(esc)
    decreases |s| - i
  {
    i < |s| &&
    match StepAt(s, i, esc)
    case Fail => true
    case Emit(_, _, width, changes) => changes || Changes(s, i + width, esc)
  }

  /** An escaped escape is read from fewer bytes than it is written in. */
  predicate IsShort(r: Step) { r.Emit? && r.room < |r.bytes| }

  /** That happens somewhere from position i on. */
  predicate HasShort(s: seq<byte>, i: nat, esc: int)
    requires IsRune(esc)
    decreases |s| - i
  {
    i < |s| && StepAt(s, i, esc).Emit? &&
    (IsShort(StepAt(s, i, esc)) || HasShort(s, i + StepAt(s, i, esc).width, esc))
  }

  /** Only the replacement character can be read from fewer bytes: a byte that is not UTF-8. */
  lemma {:induction false} StepRoom(s: seq<byte>, i: nat, esc: int)
    requires i < |s| && IsRune(esc)
    ensures var r := StepAt(s, i, esc); r.Emit? ==> r.room <= |r.bytes| && (esc != RUNE_ERROR ==> r.room == |r.bytes|)
  {
    hide Decode, Encode;
    var rune := Decode(s, i);
    if rune.code == esc {
      if esc != RUNE_ERROR { SameWidth(s, i, esc); } else { ErrorWidth(s, i); }
    }
  }

  lemma {:induction false} ErrorWidth(s: seq<byte>, i: nat)
    requires i < |s| && Decode(s, i).code == RUNE_ERROR
    ensures Decode(s, i).width <= 3 == |Encode(RUNE_ERROR)|
  {
  }

  lemma {:induction false} NoShort(s: seq<byte>, i: nat, esc: int)
    requires IsRune(esc) && esc != RUNE_ERROR
    ensures !HasShort(s, i, esc)
    decreases |s| - i
  {
    hide StepAt;
    if i < |s| && StepAt(s, i, esc).Emit? {
      StepRoom(s, i, esc);
      NoShort(s, i + StepAt(s, i, esc).width, esc);
    }
  }

  lemma {:induction false} Unfold(s: seq<byte>, i: nat, esc: int)
    requires IsRune(esc) && i < |s|
    ensures var r := StepAt(s, i, esc);
            && (r.Fail? ==> Rewritten(s, i, esc).None? && Counted(s, i, esc).None? && Changes(s, i, esc))
            && (r.Emit? ==> && Changes(s, i, esc) == (r.changes || Changes(s, i + r.width, esc))
                            && HasShort(s, i, esc) == (IsShort(r) || HasShort(s, i + r.width, esc))
                            && (Counted(s, i, esc).Some? <==> Counted(s, i + r.width, esc).Some?)
                            && (Counted(s, i, esc).Some? ==>
                                  Counted(s, i, esc).value == r.room + Counted(s, i + r.width, esc).value)
                            && (Rewritten(s, i, esc).Some? <==> Rewritten(s, i + r.width, esc).Some?)
                            && (Rewritten(s, i, esc).Some? ==>
                                  Rewritten(s, i, esc).value == r.bytes + Rewritten(s, i + r.width, esc).value))
  {
    hide StepAt;
  }

  lemma {:induction false} AtEnd(s: seq<byte>, i: nat, esc: int)
    requires IsRune(esc) && i >= |s|
    ensures Rewritten(s, i, esc) == Some([]) && Counted(s, i, esc) == Some(0) && !Changes(s, i, esc) && !HasShort(s, i, esc)
  {
  }

  /** As much room is counted as the rewriting takes, exactly if nothing is written longer than it is read. */
  lemma {:induction false} CountedRoom(s: seq<byte>, i: nat, esc: int)
    requires IsRune(esc)
    ensures Counted(s, i, esc).Some? <==> Rewritten(s, i, esc).Some?
    ensures Counted(s, i, esc).Some? ==>
              && Counted(s, i, esc).value <= |Rewritten(s, i, esc).value|
              && (Counted(s, i, esc).value == |Rewritten(s, i, esc).value| <==> !HasShort(s, i, esc))
    decreases |s| - i
  {
    hide StepAt, Rewritten, Counted, HasShort;
    if i >= |s| {
      AtEnd(s, i, esc);
    } else {
      Unfold(s, i, esc);
      StepRoom(s, i, esc);
      var r := StepAt(s, i, esc);
      if r.Emit? { CountedRoom(s, i + r.width, esc); }
    }
  }

  /** A step that changes nothing copies. */
  lemma {:induction false} UnchangedStep(s: seq<byte>, i: nat, esc: int)
    requires IsRune(esc) && i < |s|
    ensures var r := StepAt(s, i, esc);
            r.Emit? && !r.changes ==> i + r.width <= |s| && r.bytes == s[i..i + r.width] && !IsShort(r)
  {
  }

  /** A pattern without changes comes back as it is. */
  lemma {:induction false} Unchanged(s: seq<byte>, i: nat, esc: int)
    requires IsRune(esc) && i <= |s| && !Changes(s, i, esc)
    ensures Rewritten(s, i, esc) == Some(s[i..]) && !HasShort(s, i, esc)
    decreases |s| - i
  {
    hide StepAt, Rewritten, Changes, HasShort, Counted;
    if i < |s| {
      UnchangedStep(s, i, esc);
      Unfold(s, i, esc);
      var r := StepAt(s, i, esc);
      Unchanged(s, i + r.width, esc);
      assert s[i..] == r.bytes + s[i + r.width..];
    } else {
      AtEnd(s, i, esc);
      assert s[i..] == [];
    }
  }

  // ---------------------------------------------------------------------------
  // The length pass
  // ---------------------------------------------------------------------------

  /** calculateLengthAfterReplacingCustomEscape: None is an error. */
  method LengthPass(s: seq<byte>, esc: int) returns (r: Option<(bool, nat)>)
    requires IsRune(esc)
    ensures r.None? <==> Counted(s, 0, esc).None?
    ensures r.Some? ==> r.value == (Changes(s, 0, esc), Counted(s, 0, esc).value)
  {
    hide Rewritten, Counted, Changes, HasShort, Decode, Encode;
    var changed := false;
    var retLen, sLen, i := 0, |s|, 0;
    while i < sLen
      invariant 0 <= i && retLen >= 0
      invariant Counted(s, 0, esc).None? <==> Counted(s, i, esc).None?
      invariant Counted(s, i, esc).Some? ==> Counted(s, 0, esc).value == retLen + Counted(s, i, esc).value
      invariant Changes(s, 0, esc) == (changed || Changes(s, i, esc))
    {
      Unfold(s, i, esc);
      var rune := Decode(s, i);
      var w := rune.width;
      if rune.code == esc {
        if i + w < sLen {
          changed := true;
          if Decode(s, i + w).code == esc {
            retLen := retLen + w;
            i := i + 2 * w;
          } else {
            retLen := retLen + 2;
            i := i + w;
          }
        } else {
          return None;
        }
      } else if s[i] == BACKSLASH {
        if i + 1 == sLen {
          return None;
        } else if s[i + 1] == BACKSLASH {
          changed := true;
          retLen := retLen + 4;
          i := i + 2;
        } else if s[i + 1] == esc {
          if i + 2 == sLen {
            return None;
          }
          changed := true;
          if i + 4 <= sLen && s[i + 2] == BACKSLASH && s[i + 3] == esc {
            retLen := retLen + 2;
            i := i + 4;
          } else {
            retLen := retLen + 1;
            i := i + 2;
          }
        } else {
          retLen := retLen + 2;
          i := i + 2;
        }
      } else {
        retLen := retLen + w;
        i := i + w;
      }
    }
    AtEnd(s, i, esc);
    r := Some((changed, retLen));
  }

  // ---------------------------------------------------------------------------
  // The writing pass
  // ---------------------------------------------------------------------------

  /** What the pass ends with. The last two are a failed assertion and a write outside the buffer. */
  datatype Outcome = Done(bytes: seq<byte>) | InvalidEscape | AssertionFailed | IndexOutOfRange

  /** The buffer with some bytes written over it. */
  function Over(buf: seq<byte>, at: nat, bytes: seq<byte>): seq<byte>
    requires at + |bytes| <= |buf|
  {
    buf[..at] + bytes + buf[at + |bytes|..]
  }

  /** The writing pass from a position in the pattern and one in the buffer on. */
  function Fill(s: seq<byte>, i: nat, esc: int, buf: seq<byte>, at: nat): Outcome
    requires IsRune(esc)
    decreases |s| - i
  {
    if at >= |buf| then Done(buf)
    else if i >= |s| then IndexOutOfRange
    else match StepAt(s, i, esc)
      case Fail => AssertionFailed
      case Emit(bytes, room, width, _) =>
        if at + |bytes| > |buf| then IndexOutOfRange
        else Fill(s, i + width, esc, Over(buf, at, bytes), at + room)
  }

  /** What the two passes together do. */
  function Replaced(s: seq<byte>, esc: int): Outcome
    requires IsRune(esc)
  {
    match Counted(s, 0, esc)
    case None => InvalidEscape
    case Some(n) => if !Changes(s, 0, esc) then Done(s) else Fill(s, 0, esc, seq(n, _ => 0), 0)
  }

  /** Several bytes written one after the other, if they fit. */
  method Write(ret: array<byte>, at: nat, bytes: seq<byte>) returns (ok: bool)
    modifies ret
    ensures ok <==> at + |bytes| <= ret.Length
    ensures ok ==> ret[..] == Over(old(ret[..]), at, bytes)
  {
    ok := at + |bytes| <= ret.Length;
    if ok {
      forall i | 0 <= i < |bytes| {
        ret[at + i] := bytes[i];
      }
      assert ret[..] == Over(old(ret[..]), at, bytes);
    }
  }

  datatype Status = Wrote | Unexpected | OutOfRange

  /** One round of the writing loop: the bytes that stand for what is read at sIndex. */
  method WriteStep(s: seq<byte>, sIndex: nat, esc: int, ret: array<byte>, retIndex: nat)
    returns (status: Status, sNext: nat, retNext: nat)
    requires IsRune(esc) && sIndex < |s|
    modifies ret
    ensures var r := StepAt(s, sIndex, esc);
            if r.Fail? then status == Unexpected
            else if retIndex + |r.bytes| > ret.Length then status == OutOfRange
            else && status == Wrote && sNext == sIndex + r.width && retNext == retIndex + r.room
                 && ret[..] == Over(old(ret[..]), retIndex, r.bytes)
  {
    hide Encode, Decode, Over;
    var rune := Decode(s, sIndex);
    var w, sLen := rune.width, |s|;
    var ok := true;
    sNext, retNext := sIndex, retIndex;
    if rune.code == esc {
      if sIndex + w < sLen {
        if Decode(s, sIndex + w).code == esc {
          ok := Write(ret, retIndex, Encode(esc));
          retNext := retIndex + w;
          sNext := sIndex + 2 * w;
        } else {
          ok := Write(ret, retIndex, [BACKSLASH, BACKSLASH]);
          retNext := retIndex + 2;
          sNext := sIndex + w;
        }
      } else {
        return Unexpected, sNext, retNext;
      }
    } else if s[sIndex] == BACKSLASH {
      if sIndex + 1 == sLen {
        return Unexpected, sNext, retNext;
      } else if s[sIndex + 1] == BACKSLASH {
        ok := Write(ret, retIndex, [BACKSLASH, BACKSLASH, BACKSLASH, BACKSLASH]);
        retNext := retIndex + 4;
        sNext := sIndex + 2;
      } else if s[sIndex + 1] == esc {
        if sIndex + 2 == sLen {
          return Unexpected, sNext, retNext;
        } else if sIndex + 4 <= sLen && s[sIndex + 2] == BACKSLASH && s[sIndex + 3] == esc {
          ok := Write(ret, retIndex, [BACKSLASH, Encode(esc)[0]]);
          retNext := retIndex + 2;
          sNext := sIndex + 4;
        } else {
          ok := Write(ret, retIndex, [BACKSLASH]);
          retNext := retIndex + 1;
          sNext := sIndex + 2;
        }
      } else {
        ok := Write(ret, retIndex, [BACKSLASH, s[sIndex + 1]]);
        retNext := retIndex + 2;
        sNext := sIndex + 2;
      }
    } else {
      ok := Write(ret, retIndex, s[sIndex..sIndex + w]);
      retNext := retIndex + w;
      sNext := sIndex + w;
    }
    status := if ok then Wrote else OutOfRange;
  }

  /** replaceCustomEscape, for every escape character and all bytes. */
  method ReplaceCustomEscape(s: seq<byte>, esc: int) returns (r: Outcome)
    requires IsRune(esc)
    ensures r == Replaced(s, esc) && r != AssertionFailed
  {
    hide Counted, Changes, Decode, Encode, StepAt, Fill, Over;
    var length := LengthPass(s, esc);
    if length.None? {
      return InvalidEscape;
    }
    var (changed, retLen) := length.value;
    if !changed {
      return Done(s);
    }
    var ret := new byte[retLen](_ => 0);
    var retIndex, sIndex := 0, 0;
    assert ret[..] == seq(retLen, _ => 0);
    ghost var all := Fill(s, 0, esc, ret[..], 0);
    while retIndex < retLen
      invariant sIndex >= 0 && retIndex >= 0
      invariant Counted(s, sIndex, esc).Some? && retIndex + Counted(s, sIndex, esc).value == retLen
      invariant all == Fill(s, sIndex, esc, ret[..], retIndex)
      decreases |s| - sIndex
    {
      FillStep(s, sIndex, esc, ret[..], retIndex);
      var status;
      status, sIndex, retIndex := WriteStep(s, sIndex, esc, ret, retIndex);
      if status == Unexpected { return AssertionFailed; }
      if status == OutOfRange { return IndexOutOfRange; }
    }
    FillEnd(s, sIndex, esc, ret[..], retIndex);
    r := Done(ret[..]);
  }

  lemma {:induction false} FillEnd(s: seq<byte>, i: nat, esc: int, buf: seq<byte>, at: nat)
    requires IsRune(esc) && at >= |buf|
    ensures Fill(s, i, esc, buf, at) == Done(buf)
  {
  }

  lemma {:induction false} FillStep(s: seq<byte>, i: nat, esc: int, buf: seq<byte>, at: nat)
    requires IsRune(esc) && at < |buf| && Counted(s, i, esc).Some? && at + Counted(s, i, esc).value == |buf|
    ensures i < |s|
    ensures var r := StepAt(s, i, esc);
            && r.Emit? && r.width > 0
            && Counted(s, i + r.width, esc).Some? && at + r.room + Counted(s, i + r.width, esc).value == |buf|
            && Fill(s, i, esc, buf, at) == if at + |r.bytes| > |buf| then IndexOutOfRange
                                           else Fill(s, i + r.width, esc, Over(buf, at, r.bytes), at + r.room)
  {
    hide StepAt, Over;
  }

  // ---------------------------------------------------------------------------
  // When the passes agree
  // ---------------------------------------------------------------------------

  /** What both passes are meant to do. */
  function Intended(s: seq<byte>, esc: int): Outcome
    requires IsRune(esc)
  {
    match Rewritten(s, 0, esc)
    case None => InvalidEscape
    case Some(bytes) => Done(bytes)
  }

  lemma {:induction false} OverKeeps(buf: seq<byte>, at: nat, bytes: seq<byte>)
    requires at + |bytes| <= |buf|
    ensures |Over(buf, at, bytes)| == |buf| && Over(buf, at, bytes)[..at + |bytes|] == buf[..at] + bytes
  {
  }

  /** Where the counted room suffices, the buffer is filled with the rewriting. */
  lemma {:induction false} FillsExactly(s: seq<byte>, i: nat, esc: int, buf: seq<byte>, at: nat)
    requires IsRune(esc) && at <= |buf| && Rewritten(s, i, esc).Some? && !HasShort(s, i, esc)
    requires at + |Rewritten(s, i, esc).value| == |buf|
    ensures Fill(s, i, esc, buf, at) == Done(buf[..at] + Rewritten(s, i, esc).value)
    decreases |s| - i
  {
    hide StepAt, Over, Fill, Rewritten, Counted, HasShort;
    CountedRoom(s, i, esc);
    if at == |buf| {
      FillEnd(s, i, esc, buf, at);
      assert buf[..at] == buf;
    } else {
      FillStep(s, i, esc, buf, at);
      Unfold(s, i, esc);
      StepRoom(s, i, esc);
      var r := StepAt(s, i, esc);
      OverKeeps(buf, at, r.bytes);
      FillsExactly(s, i + r.width, esc, Over(buf, at, r.bytes), at + r.room);
      var rest := Rewritten(s, i + r.width, esc).value;
      assert buf[..at] + r.bytes + rest == buf[..at] + (r.bytes + rest);
    }
  }

  /** The pass never changes the size of its buffer. */
  lemma {:induction false} FillKeepsSize(s: seq<byte>, i: nat, esc: int, buf: seq<byte>, at: nat)
    requires IsRune(esc)
    ensures var r := Fill(s, i, esc, buf, at); r.Done? ==> |r.bytes| == |buf|
    decreases |s| - i
  {
    hide StepAt, Over;
    if at < |buf| && i < |s| {
      var r := StepAt(s, i, esc);
      if r.Emit? && at + |r.bytes| <= |buf| {
        OverKeeps(buf, at, r.bytes);
        FillKeepsSize(s, i + r.width, esc, Over(buf, at, r.bytes), at + r.room);
      }
    }
  }

  /** For a pattern the passes do what is intended exactly if no escaped escape is shorter than its
      own encoding: every write is then inside the buffer, and the buffer is filled. */
  lemma {:induction false} PassesAgree(s: seq<byte>, esc: int)
    requires IsRune(esc)
    ensures Replaced(s, esc) == Intended(s, esc) <==> Rewritten(s, 0, esc).None? || !HasShort(s, 0, esc)
  {
    hide StepAt, Over, Fill, Rewritten, Counted, HasShort, Changes;
    CountedRoom(s, 0, esc);
    if Counted(s, 0, esc).Some? {
      if !Changes(s, 0, esc) {
        Unchanged(s, 0, esc);
        assert s[0..] == s;
      } else {
        var buf: seq<byte> := seq(Counted(s, 0, esc).value, _ => 0);
        FillKeepsSize(s, 0, esc, buf, 0);
        if !HasShort(s, 0, esc) {
          FillsExactly(s, 0, esc, buf, 0);
          assert buf[..0] + Rewritten(s, 0, esc).value == Rewritten(s, 0, esc).value;
        }
      }
    }
  }

  /** Two bytes that are not UTF-8: one byte is counted for them and three are written. */
  lemma {:induction false} RuneErrorOverruns()
    ensures var s: seq<byte> := [0xFF, 0xFF];
            Counted(s, 0, RUNE_ERROR) == Some(1) && Replaced(s, RUNE_ERROR) == IndexOutOfRange
  {
    var s: seq<byte> := [0xFF, 0xFF];
    assert Decode(s, 0) == Rune(RUNE_ERROR, 1) && Decode(s, 1) == Rune(RUNE_ERROR, 1);
    assert StepAt(s, 0, RUNE_ERROR) == Emit(Encode(RUNE_ERROR), 1, 2, true) && |Encode(RUNE_ERROR)| == 3;
    hide StepAt;
    assert Counted(s, 2, RUNE_ERROR) == Some(0);
  }

  /** For every pattern the passes do what is intended exactly if the escape character is not U+FFFD. */
  lemma {:induction false} PassesAgreeExactly(esc: int)
    requires IsRune(esc)
    ensures (forall s :: Replaced(s, esc) == Intended(s, esc)) <==> esc != RUNE_ERROR
  {
    hide Replaced, Intended;
    if esc != RUNE_ERROR {
      forall s ensures Replaced(s, esc) == Intended(s, esc) {
        NoShort(s, 0, esc);
        PassesAgree(s, esc);
      }
    } else {
      RuneErrorOverruns();
      NotIntended([0xFF, 0xFF], esc);
    }
  }

  lemma {:induction false} NotIntended(s: seq<byte>, esc: int)
    requires IsRune(esc) && Replaced(s, esc) == IndexOutOfRange
    ensures Replaced(s, esc) != Intended(s, esc)
  {
  }
}
