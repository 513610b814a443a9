/** What a position means to the other side of the protocol, which counts UTF-16 code
    units, and how a text falls into lines. */
module Utf16 {
  import opened Common
  import opened Utf8
  import opened Positions

  // ----- the encoding of section 2.1 of RFC 2781

  type unit16 = u: int | 0 <= u < 0x1_0000

  function EncodeUnits(c: Scalar): seq<unit16> {
    if c < 0x1_0000 then [c]
    else
      var rest := c - 0x1_0000;
      [0xD800 + rest / 0x400, 0xDC00 + rest % 0x400]
  }

  function UnitsOf(cs: seq<Scalar>): seq<unit16> {
    if cs == [] then [] else EncodeUnits(cs[0]) + UnitsOf(cs[1..])
  }

  // ----- columns are UTF-16 lengths

  /** The decoder finds the first scalar, and what follows it is the rest. */
  lemma FirstScalar(cs: seq<Scalar>)
    requires cs != []
    ensures var s, e := EncodeAll(cs), EncodeRune(cs[0]);
            s != [] && DecodeRune(s) == Rune(cs[0], |e|) && s[|e|..] == EncodeAll(cs[1..])
  {
    var e, rest := EncodeRune(cs[0]), EncodeAll(cs[1..]);
    DecodeAfterEncode(cs[0], rest);
    assert (e + rest)[|e|..] == rest;
  }

  /** The length of a text is that of its UTF-16 form. */
  lemma {:induction false} LengthIsUtf16(cs: seq<Scalar>)
    ensures Utf16Length(EncodeAll(cs)) == |UnitsOf(cs)|
  {
    if cs != [] {
      FirstScalar(cs);
      LengthIsUtf16(cs[1..]);
      hide DecodeRune, EncodeRune;
    }
  }

  /** One character further, in all three encodings. */
  lemma OneFurther(cs: seq<Scalar>, k: nat)
    requires 0 < k <= |cs|
    ensures UnitsOf(cs[..k]) == EncodeUnits(cs[0]) + UnitsOf(cs[1..][..k - 1])
    ensures EncodeAll(cs[..k]) == EncodeRune(cs[0]) + EncodeAll(cs[1..][..k - 1])
  {
    hide EncodeRune, EncodeUnits;
    assert cs[..k][0] == cs[0] && cs[..k][1..] == cs[1..][..k - 1];
  }

  lemma ColumnFurther(cs: seq<Scalar>, column: nat)
    requires cs != []
    ensures 1 <= |EncodeUnits(cs[0])| <= 2
    ensures match Utf16Offset(EncodeAll(cs[1..]), column)
            case Success(k) =>
              Utf16Offset(EncodeAll(cs), |EncodeUnits(cs[0])| + column) == Success(|EncodeRune(cs[0])| + k)
            case Failure(e) => Utf16Offset(EncodeAll(cs), |EncodeUnits(cs[0])| + column) == Failure(e)
  {
    FirstScalar(cs);
    hide DecodeRune, EncodeRune, EncodeAll, Utf16Offset;
    OffsetFurther(EncodeAll(cs), column);
  }

  lemma OffsetFurther(line: Text, column: nat)
    requires line != []
    ensures var r := DecodeRune(line);
            match Utf16Offset(line[r.size..], column)
            case Success(k) => Utf16Offset(line, Units(r.code) + column) == Success(r.size + k)
            case Failure(e) => Utf16Offset(line, Units(r.code) + column) == Failure(e)
  {
    hide DecodeRune;
  }

  /** After any number of characters the column is the UTF-16 length of them, and the
      offset the UTF-8 length. */
  lemma {:induction false} ColumnOfPrefix(cs: seq<Scalar>, k: nat)
    requires k <= |cs|
    ensures Utf16Offset(EncodeAll(cs), |UnitsOf(cs[..k])|) == Success(|EncodeAll(cs[..k])|)
  {
    if k == 0 {
      assert cs[..0] == [];
    } else {
      hide EncodeRune, EncodeUnits, EncodeAll, UnitsOf, Utf16Offset;
      OneFurther(cs, k);
      ColumnOfPrefix(cs[1..], k - 1);
      ColumnFurther(cs, |UnitsOf(cs[1..][..k - 1])|);
    }
  }

  /** Between the two surrogates of a character no column resolves. */
  lemma {:induction false} ColumnInsideSurrogates(cs: seq<Scalar>, k: nat)
    requires k < |cs| && |EncodeUnits(cs[k])| == 2
    ensures Utf16Offset(EncodeAll(cs), |UnitsOf(cs[..k])| + 1) == Failure(InsideCharacter)
  {
    if k == 0 {
      FirstScalar(cs);
      hide DecodeRune, EncodeRune, EncodeAll;
      assert cs[..0] == [];
    } else {
      hide EncodeRune, EncodeUnits, EncodeAll, UnitsOf, Utf16Offset;
      OneFurther(cs, k);
      ColumnInsideSurrogates(cs[1..], k - 1);
      ColumnFurther(cs, |UnitsOf(cs[1..][..k - 1])| + 1);
    }
  }

  lemma ColumnPastEnd(cs: seq<Scalar>, column: nat)
    requires column > |UnitsOf(cs)|
    ensures Utf16Offset(EncodeAll(cs), column) == Failure(ColumnOutOfRange)
  {
    LengthIsUtf16(cs);
    ColumnErrors(EncodeAll(cs), column);
  }

  /** The decoder rejects a byte exactly when no scalar's encoding starts there. */
  lemma IllFormedExactly(s: Text)
    requires s != []
    ensures DecodeRune(s).IllFormed() <==> !exists c: Scalar :: EncodeRune(c) <= s
  {
    if !DecodeRune(s).IllFormed() {
      EncodeAfterDecode(s);
      var c: Scalar := DecodeRune(s).code;
      assert EncodeRune(c) <= s;
    }
    forall c: Scalar | EncodeRune(c) <= s ensures !DecodeRune(s).IllFormed() {
      var e := EncodeRune(c);
      assert s == e + s[|e|..];
      DecodeAfterEncode(c, s[|e|..]);
    }
  }

  /** Such a byte is one column wide by itself. */
  lemma StrayByteColumn(line: Text, column: nat)
    requires line != [] && DecodeRune(line).IllFormed()
    ensures Utf16Length(line) == 1 + Utf16Length(line[1..])
    ensures match Utf16Offset(line[1..], column)
            case Success(k) => Utf16Offset(line, column + 1) == Success(k + 1)
            case Failure(e) => Utf16Offset(line, column + 1) == Failure(e)
  {
  }

  // ----- lines

  /** Column 0 of a line is where it starts; a position in the first line is a column of
      what stands before the first `\n`, and before a `\r` right in front of it. */
  lemma FirstLine(a: Text, b: Text, column: nat)
    requires 0x0A !in a
    ensures PositionToOffset(a + [0x0D, 0x0A] + b, 0, column) == Utf16Offset(a, column)
    ensures PositionToOffset(a + [0x0D], 0, column) == Utf16Offset(a, column)
    ensures a == [] || a[|a| - 1] != 0x0D ==>
              PositionToOffset(a + [0x0A] + b, 0, column) == Utf16Offset(a, column)
              && PositionToOffset(a, 0, column) == Utf16Offset(a, column)
  {
    hide Utf16Offset;
    FirstLineText(a, a + [0x0D], [0x0A] + b);
    assert a + [0x0D] + ([0x0A] + b) == a + [0x0D, 0x0A] + b;
    FirstLineText(a, a + [0x0D], []);
    assert a + [0x0D] + [] == a + [0x0D];
    if a == [] || a[|a| - 1] != 0x0D {
      FirstLineText(a, a, [0x0A] + b);
      assert a + ([0x0A] + b) == a + [0x0A] + b;
      FirstLineText(a, a, []);
      assert a + [] == a;
    }
    forall text: Text ensures PositionToOffset(text, 0, column) == Utf16Offset(LineText(text, 0), column) {
      FromTop(text, column);
    }
  }

  lemma FromTop(text: Text, column: nat)
    ensures PositionToOffset(text, 0, column) == Utf16Offset(LineText(text, 0), column)
  {
    hide Utf16Offset;
  }

  lemma FirstLineText(a: Text, line: Text, more: Text)
    requires 0x0A !in a && (more == [] || more[0] == 0x0A)
    requires line == a + [0x0D] || (line == a && (a == [] || a[|a| - 1] != 0x0D))
    ensures LineText(line + more, 0) == a
  {
    var text := line + more;
    assert forall k :: 0 <= k < |line| ==> text[k] == line[k];
    assert forall k :: 0 <= k < |line| ==> line[k] != 0x0A;
    assert more != [] ==> text[|line|] == 0x0A;
    assert LineEnd(text, 0) == |line|;
    assert text[..|line|] == line;
  }

  /** A position in a later line is one in the text after the first `\n`. */
  lemma LaterLine(a: Text, b: Text, line: nat, column: nat)
    requires 0x0A !in a
    ensures match PositionToOffset(b, line, column)
            case Success(off) => PositionToOffset(a + [0x0A] + b, line + 1, column) == Success(|a| + 1 + off)
            case Failure(e) => PositionToOffset(a + [0x0A] + b, line + 1, column) == Failure(e)
  {
    hide PositionToOffset, LineStart, LineText, Utf16Offset, NextByte;
    var front := a + [0x0A];
    FirstBreak(a, b);
    OneLineDown(front + b, |front|, line);
    StartsShift(front, b, 0, line);
    InLine(front + b, line + 1, column);
    InLine(b, line, column);
    if LineStart(b, 0, line).Some? { LineTextShifts(front, b, LineStart(b, 0, line).value); }
  }

  lemma InLine(text: Text, line: nat, column: nat)
    ensures match LineStart(text, 0, line)
            case None => PositionToOffset(text, line, column) == Failure(LineOutOfRange)
            case Some(start) =>
              match Utf16Offset(LineText(text, start), column)
              case Success(k) => PositionToOffset(text, line, column) == Success(start + k)
              case Failure(e) => PositionToOffset(text, line, column) == Failure(e)
  {
    hide LineStart, LineText, Utf16Offset;
  }

  lemma FirstBreak(a: Text, b: Text)
    requires 0x0A !in a
    ensures NextByte(a + [0x0A] + b, 0, LF) == Some(|a|)
  {
    var text := a + [0x0A] + b;
    assert text[|a|] == 0x0A && forall k :: 0 <= k < |a| ==> text[k] == a[k];
  }

  lemma OneLineDown(text: Text, start: nat, line: nat)
    requires 0 < start <= |text| && NextByte(text, 0, LF) == Some(start - 1)
    ensures LineStart(text, 0, line + 1) == LineStart(text, start, line)
  {
    hide NextByte;
  }

  lemma {:induction false} NextShifts(front: Text, b: Text, from: nat)
    requires from <= |b|
    ensures NextByte(front + b, |front| + from, LF)
         == match NextByte(b, from, LF) case None => None case Some(i) => Some(|front| + i)
  {
    var text := front + b;
    assert forall k :: 0 <= k < |b| ==> text[|front| + k] == b[k];
    var there := NextByte(text, |front| + from, LF);
    if there.Some? { assert b[there.value - |front|] == LF; }
    if NextByte(b, from, LF).Some? { assert text[|front| + NextByte(b, from, LF).value] == LF; }
  }

  lemma {:induction false} StartsShift(front: Text, b: Text, from: nat, lines: nat)
    requires from <= |b|
    ensures LineStart(front + b, |front| + from, lines)
         == match LineStart(b, from, lines) case None => None case Some(i) => Some(|front| + i)
    decreases lines
  {
    hide NextByte;
    if lines > 0 {
      NextShifts(front, b, from);
      match NextByte(b, from, LF) {
        case None =>
        case Some(nl) => StartsShift(front, b, nl + 1, lines - 1);
      }
    }
  }

  lemma LineTextShifts(front: Text, b: Text, start: nat)
    requires start <= |b|
    ensures LineText(front + b, |front| + start) == LineText(b, start)
  {
    var end := LineEnd(b, start);
    LineEndShifts(front, b, start);
    LineTextIs(front + b, |front| + start, |front| + end);
    LineTextIs(b, start, end);
    hide LineEnd, LineText, NextByte;
    CutShifts(front, b, start, end);
  }

  /** A line without one trailing `\r`. */
  function Cut(text: Text, start: nat, end: nat): Text
    requires start <= end <= |text|
  {
    if end > start && text[end - 1] == CR then text[start..end - 1] else text[start..end]
  }

  lemma CutShifts(front: Text, b: Text, start: nat, end: nat)
    requires start <= end <= |b|
    ensures Cut(front + b, |front| + start, |front| + end) == Cut(b, start, end)
  {
    if end > start { ByteShifts(front, b, end - 1); }
    if end > start && b[end - 1] == CR {
      SliceShifts(front, b, start, end - 1);
    } else {
      SliceShifts(front, b, start, end);
    }
  }

  lemma LineTextIs(text: Text, start: nat, end: nat)
    requires start <= |text| && LineEnd(text, start) == end
    ensures LineText(text, start) == Cut(text, start, end)
  {
    hide LineEnd;
  }

  lemma ByteShifts(front: Text, b: Text, i: nat)
    requires i < |b|
    ensures (front + b)[|front| + i] == b[i]
  {
  }

  lemma LineEndShifts(front: Text, b: Text, start: nat)
    requires start <= |b|
    ensures LineEnd(front + b, |front| + start) == |front| + LineEnd(b, start)
  {
    NextShifts(front, b, start);
    hide NextByte;
  }

  lemma SliceShifts(front: Text, b: Text, i: nat, j: nat)
    requires i <= j <= |b|
    ensures (front + b)[|front| + i..|front| + j] == b[i..j]
  {
  }

  /** There are as many lines as `\n` and one more, and no line or column below zero. */
  lemma NoSuchLine(a: Text, line: int, column: int)
    ensures line < 0 || column < 0 ==> PositionToOffset(a, line, column) == Failure(NegativePosition)
    ensures line > 0 && column >= 0 && 0x0A !in a ==> PositionToOffset(a, line, column) == Failure(LineOutOfRange)
  {
  }
}
