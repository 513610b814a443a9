/** LSP positions (line, UTF-16 column) against byte offsets of a UTF-8 text. */
module Positions {
  import opened Common
  import opened Utf8

  datatype PositionError =
    | NegativePosition
    | LineOutOfRange
    | InsideCharacter
    | ColumnOutOfRange

  const LF: byte := 0x0A
  const CR: byte := 0x0D

  // ----- columns

  /** UTF-16 code units of one decoded rune (section 2.1 of RFC 2781). */
  function Units(code: int): nat { if code > 0xFFFF then 2 else 1 }

  /** UTF-16 length of a text, as the test harness's `utf16Column` adds it up. */
  function Utf16Length(s: Text): nat
    decreases |s|
  {
    if s == [] then 0 else
      var r := DecodeRune(s);
      Units(r.code) + Utf16Length(s[r.size..])
  }

  /** `k` is where the decoder stands after some number of runes of `s`. */
  predicate Boundary(s: Text, k: nat)
    decreases |s|
  {
    k == 0 || (s != [] && (var r := DecodeRune(s); r.size <= k && Boundary(s[r.size..], k - r.size)))
  }

  function Utf16Offset(line: Text, column: nat): Result<nat, PositionError>
    decreases |line|
  {
    if column == 0 then Success(0)
    else if line == [] then Failure(ColumnOutOfRange)
    else
      var r := DecodeRune(line);
      if Units(r.code) > column then Failure(InsideCharacter)
      else Advance(r.size, Utf16Offset(line[r.size..], column - Units(r.code)))
  }

  function Advance(shift: nat, r: Result<nat, PositionError>): Result<nat, PositionError> {
    match r
    case Success(k) => Success(shift + k)
    case Failure(_) => r
  }

  /** A column resolves to `k` exactly when `k` is a rune boundary that has
      `column` UTF-16 units before it. */
  lemma {:induction false} ColumnExact(line: Text, column: nat, k: nat)
    ensures Utf16Offset(line, column) == Success(k)
       <==> k <= |line| && Boundary(line, k) && Utf16Length(line[..k]) == column
    decreases |line|
  {
    if line != [] {
      var r := DecodeRune(line);
      if k >= r.size {
        ColumnExact(line[r.size..], if column >= Units(r.code) then column - Units(r.code) else 0, k - r.size);
        if k <= |line| {
          DecodePrefix(line, k);
          assert line[..k][r.size..] == line[r.size..][..k - r.size];
        }
      }
    }
  }

  /** The two ways a column fails: past the end of the line, or between the
      surrogates of one rune. */
  lemma {:induction false} ColumnErrors(line: Text, column: nat)
    ensures Utf16Offset(line, column) == Failure(ColumnOutOfRange) <==> column > Utf16Length(line)
    ensures Utf16Offset(line, column) == Failure(InsideCharacter)
       <==> column <= Utf16Length(line)
            && !exists k: nat | k <= |line| :: Boundary(line, k) && Utf16Length(line[..k]) == column
    ensures Utf16Offset(line, column).Failure? ==>
              Utf16Offset(line, column).error in {ColumnOutOfRange, InsideCharacter}
    decreases |line|
  {
    forall k: nat ensures Utf16Offset(line, column) == Success(k)
                     <==> k <= |line| && Boundary(line, k) && Utf16Length(line[..k]) == column
    {
      ColumnExact(line, column, k);
    }
    ColumnRange(line, column);
  }

  lemma {:induction false} ColumnRange(line: Text, column: nat)
    ensures Utf16Offset(line, column) == Failure(ColumnOutOfRange) <==> column > Utf16Length(line)
    ensures Utf16Offset(line, column).Failure? ==>
              Utf16Offset(line, column).error in {ColumnOutOfRange, InsideCharacter}
    ensures Utf16Offset(line, column).Success? ==> Utf16Offset(line, column).value <= |line|
    decreases |line|
  {
    if line != [] {
      var r := DecodeRune(line);
      if Units(r.code) <= column {
        ColumnRange(line[r.size..], column - Units(r.code));
      }
    }
  }

  /** More boundary, more units: the columns of a line are strictly ordered. */
  lemma {:induction false} ColumnsIncrease(line: Text, i: nat, j: nat)
    requires i < j <= |line| && Boundary(line, i) && Boundary(line, j)
    ensures Utf16Length(line[..i]) < Utf16Length(line[..j])
    decreases |line|
  {
    var r := DecodeRune(line);
    DecodePrefix(line, j);
    if i > 0 {
      DecodePrefix(line, i);
      assert line[..i][r.size..] == line[r.size..][..i - r.size];
      assert line[..j][r.size..] == line[r.size..][..j - r.size];
      ColumnsIncrease(line[r.size..], i - r.size, j - r.size);
    }
  }

  // ----- lines

  /** Index of the first `b` at or after `from`: `strings.IndexByte` on the rest of
      the text, as an absolute index. */
  function NextByte(text: Text, from: nat, b: byte): (i: Option<nat>)
    requires from <= |text|
    ensures i.Some? ==> from <= i.value < |text| && text[i.value] == b
    ensures i.Some? ==> forall k :: from <= k < i.value ==> text[k] != b
    ensures i.None? ==> forall k :: from <= k < |text| ==> text[k] != b
    decreases |text| - from
  {
    if from == |text| then None
    else if text[from] == b then Some(from)
    else NextByte(text, from + 1, b)
  }

  /** Where the line `lines` lines below the one starting at `from` starts. */
  function LineStart(text: Text, from: nat, lines: nat): (start: Option<nat>)
    requires from <= |text|
    ensures start.Some? ==> from <= start.value <= |text|
    decreases lines
  {
    if lines == 0 then Some(from) else
      match NextByte(text, from, LF)
      case None => None
      case Some(nl) => LineStart(text, nl + 1, lines - 1)
  }

  /** End of the line starting at `start`: its `\n`, or the end of the text. */
  function LineEnd(text: Text, start: nat): (end: nat)
    requires start <= |text|
    ensures start <= end <= |text| && (end < |text| ==> text[end] == LF)
    ensures forall k :: start <= k < end ==> text[k] != LF
  {
    match NextByte(text, start, LF)
    case None => |text|
    case Some(nl) => nl
  }

  /** The text of the line starting at `start`, without one trailing `\r`. */
  function LineText(text: Text, start: nat): (l: Text)
    requires start <= |text|
    ensures start + |l| <= LineEnd(text, start) && l == text[start..start + |l|]
  {
    var end := LineEnd(text, start);
    if end > start && text[end - 1] == CR then text[start..end - 1] else text[start..end]
  }

  function PositionToOffset(text: Text, line: int, column: int): Result<nat, PositionError> {
    if line < 0 || column < 0 then Failure(NegativePosition) else
      match LineStart(text, 0, line)
      case None => Failure(LineOutOfRange)
      case Some(start) => Advance(start, Utf16Offset(LineText(text, start), column))
  }

  // ----- the inverse, defined from the offset alone

  /** Number of `\n` before offset `off`. */
  function CountLines(text: Text, off: nat): nat
    requires off <= |text|
  {
    if off == 0 then 0 else (if text[off - 1] == LF then 1 else 0) + CountLines(text, off - 1)
  }

  predicate BeginsLine(text: Text, start: nat) {
    start <= |text| && (start == 0 || text[start - 1] == LF)
  }

  /** Start of the line that holds offset `off`: just after the last `\n` before it. */
  function StartOfLine(text: Text, off: nat): (start: nat)
    requires off <= |text|
    ensures start <= off && BeginsLine(text, start)
    ensures forall k :: start <= k < off ==> text[k] != LF
  {
    if off == 0 || text[off - 1] == LF then off else StartOfLine(text, off - 1)
  }

  /** Offsets a position can name: rune boundaries of some line's text. */
  predicate Addressable(text: Text, off: nat) {
    off <= |text|
    && var start := StartOfLine(text, off);
       off - start <= |LineText(text, start)| && Boundary(LineText(text, start), off - start)
  }

  function PositionOf(text: Text, off: nat): (int, int)
    requires off <= |text|
  {
    (CountLines(text, off), Utf16Length(text[StartOfLine(text, off)..off]))
  }

  /** The count is constant exactly over stretches without a newline. */
  lemma {:induction false} CountStretch(text: Text, i: nat, j: nat)
    requires i <= j <= |text|
    ensures CountLines(text, i) <= CountLines(text, j)
    ensures CountLines(text, i) == CountLines(text, j) <==> forall k :: i <= k < j ==> text[k] != LF
  {
    if i < j {
      CountStretch(text, i, j - 1);
    }
  }

  /** `start` is `lines` lines below line start `from` iff it begins a line and has
      that many newlines more before it. */
  lemma {:induction false} LineStartExact(text: Text, from: nat, lines: nat, start: nat)
    requires from <= |text|
    ensures LineStart(text, from, lines) == Some(start) && (lines == 0 ==> BeginsLine(text, from))
       <==> from <= start <= |text| && BeginsLine(text, start)
            && CountLines(text, start) == CountLines(text, from) + lines
            && (lines == 0 ==> start == from)
    decreases lines
  {
    if lines > 0 {
      match NextByte(text, from, LF) {
        case None =>
          CountStretch(text, from, |text|);
          if from <= start <= |text| { CountStretch(text, start, |text|); }
        case Some(nl) =>
          CountStretch(text, from, nl);
          LineStartExact(text, nl + 1, lines - 1, start);
          if from <= start <= nl { CountStretch(text, start, nl); }
          if lines == 1 && nl < start <= |text| { CountStretch(text, nl + 1, start); }
      }
    }
  }

  /** Every offset inside a line's text has that line's start and number. */
  lemma {:induction false} SameLine(text: Text, start: nat, off: nat)
    requires BeginsLine(text, start) && start <= off <= LineEnd(text, start)
    ensures StartOfLine(text, off) == start && CountLines(text, off) == CountLines(text, start)
    decreases off
  {
    if off > start {
      SameLine(text, start, off - 1);
    }
  }

  /** The position map and its inverse: a position resolves to `off` exactly when
      `off` is addressable and the position is the one `off` has. */
  lemma PositionExact(text: Text, line: int, column: int, off: nat)
    ensures PositionToOffset(text, line, column) == Success(off)
       <==> Addressable(text, off) && PositionOf(text, off) == (line, column)
  {
    hide PositionToOffset, PositionOf;
    if PositionToOffset(text, line, column) == Success(off) {
      ResolvedIsAddressable(text, line, column, off);
    }
    if Addressable(text, off) && PositionOf(text, off) == (line, column) {
      AddressableResolves(text, off);
    }
  }

  lemma AddressableResolves(text: Text, off: nat)
    requires Addressable(text, off)
    ensures var (line, column) := PositionOf(text, off); PositionToOffset(text, line, column) == Success(off)
  {
    hide DecodeRune;
    var (line, column) := PositionOf(text, off);
    var start := StartOfLine(text, off);
    CountStretch(text, start, off);
    LineStartFromTop(text, line, start);
    assert text[start..off] == LineText(text, start)[..off - start];
    ColumnExact(LineText(text, start), column, off - start);
  }

  lemma LineStartFromTop(text: Text, line: nat, start: nat)
    ensures LineStart(text, 0, line) == Some(start)
       <==> BeginsLine(text, start) && CountLines(text, start) == line
  {
    LineStartExact(text, 0, line, start);
    if BeginsLine(text, start) && CountLines(text, start) == 0 {
      CountStretch(text, 0, start);
    }
  }

  lemma ResolvedIsAddressable(text: Text, line: int, column: int, off: nat)
    requires PositionToOffset(text, line, column) == Success(off)
    ensures Addressable(text, off) && PositionOf(text, off) == (line, column)
  {
    hide DecodeRune;
    var start := LineStart(text, 0, line).value;
    LineStartFromTop(text, line, start);
    ColumnExact(LineText(text, start), column, off - start);
    SameLine(text, start, off);
    assert text[start..off] == LineText(text, start)[..off - start];
  }

  predicate Before(p: (int, int), q: (int, int)) {
    p.0 < q.0 || (p.0 == q.0 && p.1 < q.1)
  }

  lemma EqualCountsSameLine(text: Text, i: nat, j: nat)
    requires i <= j <= |text| && CountLines(text, i) == CountLines(text, j)
    ensures StartOfLine(text, i) == StartOfLine(text, j)
  {
    CountStretch(text, i, j);
    var s := StartOfLine(text, i);
    assert forall k :: s <= k < j ==> text[k] != LF;
    SameLine(text, s, j);
  }

  lemma OffsetsOrderPositions(text: Text, i: nat, j: nat)
    requires i < j && Addressable(text, i) && Addressable(text, j)
    ensures Before(PositionOf(text, i), PositionOf(text, j))
  {
    hide DecodeRune, Utf16Length, Boundary, LineText;
    CountStretch(text, i, j);
    if CountLines(text, i) == CountLines(text, j) {
      EqualCountsSameLine(text, i, j);
      ColumnsIncreaseInText(text, StartOfLine(text, j), i, j);
    }
  }

  lemma ColumnsIncreaseInText(text: Text, start: nat, i: nat, j: nat)
    requires start <= i < j <= |text| && j - start <= |LineText(text, start)|
    requires Boundary(LineText(text, start), i - start) && Boundary(LineText(text, start), j - start)
    ensures Utf16Length(text[start..i]) < Utf16Length(text[start..j])
  {
    hide DecodeRune, Utf16Length, Boundary, LineText;
    var body := LineText(text, start);
    assert body[..i - start] == text[start..i] && body[..j - start] == text[start..j];
    ColumnsIncrease(body, i - start, j - start);
  }

  /** Strictly increasing, hence injective: positions compare lexicographically as
      their offsets do. */
  lemma PositionsIncrease(text: Text, l0: int, c0: int, l1: int, c1: int)
    requires PositionToOffset(text, l0, c0).Success? && PositionToOffset(text, l1, c1).Success?
    ensures Before((l0, c0), (l1, c1))
       <==> PositionToOffset(text, l0, c0).value < PositionToOffset(text, l1, c1).value
    ensures PositionToOffset(text, l0, c0) == PositionToOffset(text, l1, c1) ==> (l0, c0) == (l1, c1)
  {
    hide PositionToOffset, Addressable, PositionOf;
    var i, j := PositionToOffset(text, l0, c0).value, PositionToOffset(text, l1, c1).value;
    PositionExact(text, l0, c0, i);
    PositionExact(text, l1, c1, j);
    if i < j { OffsetsOrderPositions(text, i, j); }
    if j < i { OffsetsOrderPositions(text, j, i); }
  }

  /** No position lands between `\r` and `\n`. */
  lemma NeverInsideLineEnd(text: Text, line: int, column: int)
    requires PositionToOffset(text, line, column).Success?
    ensures var off := PositionToOffset(text, line, column).value;
            off <= |text| && !(0 < off < |text| && text[off - 1] == CR && text[off] == LF)
  {
    var off := PositionToOffset(text, line, column).value;
    PositionExact(text, line, column, off);
    var start := StartOfLine(text, off);
    if 0 < off < |text| && text[off - 1] == CR && text[off] == LF {
      assert off <= LineEnd(text, start);
    }
  }

  /** In a well-formed text no position lands inside a code point. */
  lemma {:induction false} PositionsSplitWellFormed(text: Text, line: int, column: int)
    requires Decodes(text) && PositionToOffset(text, line, column).Success?
    ensures var off := PositionToOffset(text, line, column).value; off <= |text| && Decodes(text[..off])
  {
    var off := PositionToOffset(text, line, column).value;
    PositionExact(text, line, column, off);
    SplitInsideLine(text, StartOfLine(text, off), off);
  }

  lemma SplitInsideLine(text: Text, start: nat, off: nat)
    requires Decodes(text) && BeginsLine(text, start)
    requires start <= off <= start + |LineText(text, start)| && Boundary(LineText(text, start), off - start)
    ensures Decodes(text[..off])
  {
    LineTextWellFormed(text, start);
    BoundarySplits(LineText(text, start), off - start);
    JoinPrefix(text, start, off, LineText(text, start)[..off - start]);
  }

  lemma JoinPrefix(text: Text, start: nat, off: nat, piece: Text)
    requires Decodes(text) && BeginsLine(text, start) && start <= off <= |text|
    requires piece == text[start..off] && Decodes(piece)
    ensures Decodes(text[..off])
  {
    LineStartSplits(text, start);
    DecodesConcat(text[..start], piece);
    assert text[..start] + piece == text[..off];
  }

  lemma LineStartSplits(text: Text, start: nat)
    requires Decodes(text) && BeginsLine(text, start)
    ensures Decodes(text[..start])
  {
    if start > 0 {
      AsciiSplits(text, start - 1);
      DecodesConcat(text[..start - 1], [LF]);
      assert text[..start - 1] + [LF] == text[..start];
    }
  }

  lemma {:induction false} LineTextWellFormed(text: Text, start: nat)
    requires Decodes(text) && BeginsLine(text, start)
    ensures Decodes(LineText(text, start))
  {
    hide DecodeRune;
    LineStartSplits(text, start);
    var stop := start + |LineText(text, start)|;
    AsciiOrEndSplits(text, stop);
    DecodesBetween(text, start, stop);
  }

  lemma AsciiOrEndSplits(text: Text, stop: nat)
    requires Decodes(text) && stop <= |text| && (stop < |text| ==> text[stop] < 0x80)
    ensures Decodes(text[..stop])
  {
    if stop == |text| {
      assert text[..stop] == text;
    } else {
      AsciiSplits(text, stop);
    }
  }

  lemma {:induction false} BoundarySplits(s: Text, k: nat)
    requires Decodes(s) && k <= |s| && Boundary(s, k)
    ensures Decodes(s[..k])
    decreases |s|
  {
    if k > 0 {
      var n := DecodeRune(s).size;
      BoundarySplits(s[n..], k - n);
      DecodePrefix(s, k);
      assert s[..k][n..] == s[n..][..k - n];
    }
  }

  // ----- the loops

  method FindByte(s: Text, b: byte) returns (i: int)
    ensures -1 <= i < |s|
    ensures i >= 0 ==> s[i] == b && forall k :: 0 <= k < i ==> s[k] != b
    ensures i < 0 ==> b !in s
  {
    i := 0;
    while i < |s|
      invariant 0 <= i <= |s|
      invariant forall k :: 0 <= k < i ==> s[k] != b
    {
      if s[i] == b { return; }
      i := i + 1;
    }
    i := -1;
  }

  method FindColumn(line: Text, column: int) returns (r: Result<nat, PositionError>)
    ensures column < 0 ==> r == Failure(NegativePosition)
    ensures column >= 0 ==> r == Utf16Offset(line, column)
  {
    hide DecodeRune;
    if column == 0 { return Success(0); }
    if column < 0 { return Failure(NegativePosition); }
    var units, byteOffset, idx := 0, 0, 0;
    assert line[0..] == line;
    while idx < |line|
      invariant 0 <= units < column && byteOffset == idx <= |line|
      invariant Utf16Offset(line, column) == Advance(idx, Utf16Offset(line[idx..], column - units))
    {
      var rune := DecodeRune(line[idx..]);
      assert line[idx..][rune.size..] == line[idx + rune.size..];
      units := units + Units(rune.code);
      if units > column { return Failure(InsideCharacter); }
      byteOffset := idx + rune.size;
      idx := idx + rune.size;
      if units == column { return Success(byteOffset); }
    }
    // Here units < column, so the source's last comparison always reports an error.
    r := Failure(ColumnOutOfRange);
  }

  method FindOffset(text: Text, line: int, column: int) returns (r: Result<nat, PositionError>)
    ensures r == PositionToOffset(text, line, column)
  {
    if line < 0 || column < 0 { return Failure(NegativePosition); }
    hide LineText, Utf16Offset, Advance;
    var lineStart, currentLine := 0, 0;
    while currentLine < line
      invariant 0 <= currentLine <= line && 0 <= lineStart <= |text|
      invariant LineStart(text, 0, line) == LineStart(text, lineStart, line - currentLine)
    {
      var next := FindByte(text[lineStart..], LF);
      if next < 0 {
        assert forall k :: lineStart <= k < |text| ==> text[k] == text[lineStart..][k - lineStart];
        return Failure(LineOutOfRange);
      }
      FoundIsNext(text, lineStart, next);
      lineStart := lineStart + next + 1;
      currentLine := currentLine + 1;
    }
    var nl := FindByte(text[lineStart..], LF);
    var lineEnd := |text|;
    if nl >= 0 {
      FoundIsNext(text, lineStart, nl);
      lineEnd := lineStart + nl;
    } else {
      assert forall k :: lineStart <= k < |text| ==> text[k] == text[lineStart..][k - lineStart];
    }
    var lineText := text[lineStart..lineEnd];
    if lineText != [] && lineText[|lineText| - 1] == CR {
      lineText := lineText[..|lineText| - 1];
    }
    CutIsLineText(text, lineStart, lineEnd, lineText);
    var offset := FindColumn(lineText, column);
    r := Advance(lineStart, offset);
  }

  lemma CutIsLineText(text: Text, start: nat, end: nat, cut: Text)
    requires start <= |text| && end == LineEnd(text, start)
    requires var whole := text[start..end];
             cut == if whole != [] && whole[|whole| - 1] == CR then whole[..|whole| - 1] else whole
    ensures cut == LineText(text, start)
  {
    hide LineEnd, NextByte;
    if end > start && text[end - 1] == CR {
      assert text[start..end][..end - start - 1] == text[start..end - 1];
    }
  }

  lemma FoundIsNext(text: Text, from: nat, i: nat)
    requires from + i < |text| && text[from..][i] == LF
    requires forall k :: 0 <= k < i ==> text[from..][k] != LF
    ensures NextByte(text, from, LF) == Some(from + i)
  {
    assert forall k :: from <= k < from + i ==> text[k] == text[from..][k - from];
  }
}
