/** Byte texts and the UTF-8 decoder the edit engine walks them with.

    `DecodeRune` follows `utf8.DecodeRuneInString`: an ill-formed sequence gives
    the replacement rune with size 1.  `EncodeRune` is the table of section 3 of
    RFC 3629, and `WellFormed` its section 4. */
module Utf8 {
  type byte = b: int | 0 <= b < 0x100
  type Text = seq<byte>

  /** Unicode scalar values: surrogates excluded. */
  type Scalar = c: int | 0 <= c < 0x11_0000 && !(0xD800 <= c < 0xE000)

  const RUNE_ERROR: int := 0xFFFD

  datatype Rune = Rune(code: int, size: nat) {
    predicate IllFormed() { code == RUNE_ERROR && size == 1 }
  }

  /** Sequence length announced by a leading byte; 0 for a byte that leads nothing. */
  function SequenceLength(b: byte): nat {
    if b < 0x80 then 1
    else if b < 0xC2 then 0
    else if b < 0xE0 then 2
    else if b < 0xF0 then 3
    else if b < 0xF5 then 4
    else 0
  }

  predicate Continuation(b: byte) { 0x80 <= b < 0xC0 }

  /** The narrower range the second byte must lie in. */
  predicate SecondByte(lead: byte, b: byte) {
    (if lead == 0xE0 then 0xA0 else if lead == 0xF0 then 0x90 else 0x80) <= b
    <= (if lead == 0xED then 0x9F else if lead == 0xF4 then 0x8F else 0xBF)
  }

  /** The bits of `b` above its marker. */
  function Payload(b: int, marker: int): int { b - marker }

  function DecodeRune(s: Text): (r: Rune)
    requires s != []
    ensures 1 <= r.size <= 4 && r.size <= |s|
  {
    var n := SequenceLength(s[0]);
    if n == 1 then Rune(s[0], 1)
    else if n == 0 || |s| < n || !SecondByte(s[0], s[1]) then Rune(RUNE_ERROR, 1)
    else if n == 2 then Rune(Payload(s[0], 0xC0) * 0x40 + Payload(s[1], 0x80), 2)
    else if !Continuation(s[2]) then Rune(RUNE_ERROR, 1)
    else if n == 3 then
      Rune(Payload(s[0], 0xE0) * 0x1000 + Payload(s[1], 0x80) * 0x40 + Payload(s[2], 0x80), 3)
    else if !Continuation(s[3]) then Rune(RUNE_ERROR, 1)
    else
      Rune(Payload(s[0], 0xF0) * 0x4_0000 + Payload(s[1], 0x80) * 0x1000
           + Payload(s[2], 0x80) * 0x40 + Payload(s[3], 0x80), 4)
  }

  function EncodeRune(c: Scalar): (e: Text) {
    if c < 0x80 then [c]
    else if c < 0x800 then [0xC0 + c / 0x40, 0x80 + c % 0x40]
    else if c < 0x1_0000 then
      [0xE0 + c / 0x1000, 0x80 + c / 0x40 % 0x40, 0x80 + c % 0x40]
    else
      [0xF0 + c / 0x4_0000, 0x80 + c / 0x1000 % 0x40, 0x80 + c / 0x40 % 0x40, 0x80 + c % 0x40]
  }

  function EncodeAll(cs: seq<Scalar>): Text {
    if cs == [] then [] else EncodeRune(cs[0]) + EncodeAll(cs[1..])
  }

  /** Section 4 of RFC 3629: a text is well formed when it encodes some scalars. */
  ghost predicate WellFormed(s: Text) {
    exists cs: seq<Scalar> :: EncodeAll(cs) == s
  }

  /** The decoder meets no ill-formed sequence. */
  predicate Decodes(s: Text)
    decreases |s|
  {
    s == [] || (var r := DecodeRune(s); !r.IllFormed() && Decodes(s[r.size..]))
  }

  /** The base-64 digits of a scalar put it back together. */
  lemma Digits(c: int)
    requires 0 <= c
    ensures c == c / 0x40 * 0x40 + c % 0x40
    ensures c / 0x40 == c / 0x1000 * 0x40 + c / 0x40 % 0x40
    ensures c / 0x1000 == c / 0x4_0000 * 0x40 + c / 0x1000 % 0x40
  {
    assert c / 0x1000 == c / 0x40 / 0x40;
    assert c / 0x4_0000 == c / 0x1000 / 0x40;
  }

  lemma DecodeAfterEncode(c: Scalar, rest: Text)
    ensures DecodeRune(EncodeRune(c) + rest) == Rune(c, |EncodeRune(c)|)
    ensures !DecodeRune(EncodeRune(c) + rest).IllFormed()
  {
    var e := EncodeRune(c);
    var s := e + rest;
    Digits(c);
    assert s[..|e|] == e && s[0] == e[0];
    if c < 0x80 {
    } else if c < 0x800 {
      assert s[1] == e[1];
    } else if c < 0x1_0000 {
      assert s[1] == e[1] && s[2] == e[2];
      assert SequenceLength(s[0]) == 3;
      assert SecondByte(s[0], s[1]);
    } else {
      assert s[1] == e[1] && s[2] == e[2] && s[3] == e[3];
      assert SequenceLength(s[0]) == 4;
      assert SecondByte(s[0], s[1]);
    }
  }

  lemma EncodeAfterDecode(s: Text)
    requires s != [] && !DecodeRune(s).IllFormed()
    ensures var r := DecodeRune(s);
            0 <= r.code < 0x11_0000 && !(0xD800 <= r.code < 0xE000) && EncodeRune(r.code) == s[..r.size]
  {
    var r := DecodeRune(s);
    if r.size == 2 {
      assert r.code / 0x40 == Payload(s[0], 0xC0);
    } else if r.size == 3 {
      assert r.code / 0x40 == Payload(s[0], 0xE0) * 0x40 + Payload(s[1], 0x80);
    } else if r.size == 4 {
      EncodeFourBytes(s);
    }
  }

  lemma EncodeFourBytes(s: Text)
    requires s != [] && DecodeRune(s).size == 4
    ensures var c := DecodeRune(s).code; 0x1_0000 <= c < 0x11_0000 && EncodeRune(c) == s[..4]
  {
    var c := DecodeRune(s).code;
    assert c / 0x40 == Payload(s[0], 0xF0) * 0x1000 + Payload(s[1], 0x80) * 0x40 + Payload(s[2], 0x80);
    assert c / 0x1000 == Payload(s[0], 0xF0) * 0x40 + Payload(s[1], 0x80);
  }

  /** The decoder accepts exactly the well-formed texts. */
  lemma DecodesExactlyWellFormed(s: Text)
    ensures Decodes(s) <==> WellFormed(s)
  {
    if Decodes(s) {
      var _ := DecodedScalars(s);
    }
    if WellFormed(s) {
      var cs: seq<Scalar> :| EncodeAll(cs) == s;
      EncodedTextDecodes(cs);
    }
  }

  lemma {:induction false} DecodedScalars(s: Text) returns (cs: seq<Scalar>)
    requires Decodes(s)
    ensures EncodeAll(cs) == s
    decreases |s|
  {
    if s == [] {
      cs := [];
    } else {
      EncodeAfterDecode(s);
      var r := DecodeRune(s);
      var tail := DecodedScalars(s[r.size..]);
      cs := [r.code] + tail;
      assert cs[1..] == tail;
      assert s == s[..r.size] + s[r.size..];
    }
  }

  lemma {:induction false} EncodedTextDecodes(cs: seq<Scalar>)
    ensures Decodes(EncodeAll(cs))
  {
    if cs != [] {
      var e, rest := EncodeRune(cs[0]), EncodeAll(cs[1..]);
      DecodeAfterEncode(cs[0], rest);
      EncodedTextDecodes(cs[1..]);
      assert (e + rest)[|e|..] == rest;
    }
  }

  /** Truncating a text after its first rune does not change that rune. */
  lemma DecodePrefix(s: Text, k: nat)
    requires s != [] && DecodeRune(s).size <= k <= |s|
    ensures DecodeRune(s[..k]) == DecodeRune(s)
  {
    assert s[..k][0] == s[0];
  }

  /** Every byte of a multi-byte rune is at or above 0x80. */
  lemma MultiByteRune(s: Text, i: nat)
    requires s != [] && !DecodeRune(s).IllFormed()
    requires i < DecodeRune(s).size && DecodeRune(s).size > 1
    ensures s[i] >= 0x80
  {
  }

  lemma {:induction false} DecodesConcat(a: Text, b: Text)
    requires Decodes(a)
    ensures Decodes(a + b) <==> Decodes(b)
    decreases |a|
  {
    if a == [] {
      assert a + b == b;
    } else {
      var n := DecodeRune(a).size;
      assert (a + b)[..|a|] == a;
      assert DecodeRune(a + b) == DecodeRune(a) by {
        EncodeAfterDecode(a);
        DecodeAfterEncode(DecodeRune(a).code, a[n..] + b);
        assert a + b == a[..n] + (a[n..] + b);
      }
      DecodesConcat(a[n..], b);
      assert (a + b)[n..] == a[n..] + b;
    }
  }

  /** An ASCII byte of a well-formed text starts a rune. */
  lemma {:induction false} AsciiSplits(s: Text, i: nat)
    requires Decodes(s) && i < |s| && s[i] < 0x80
    ensures Decodes(s[..i])
    decreases |s|
  {
    if i > 0 {
      var n := DecodeRune(s).size;
      if i < n { MultiByteRune(s, i); }
      AsciiSplits(s[n..], i - n);
      DecodePrefix(s, i);
      assert s[..i][n..] == s[n..][..i - n];
    }
  }

  /** The stretch between two well-formed prefixes is well formed. */
  lemma DecodesBetween(s: Text, i: nat, j: nat)
    requires i <= j <= |s| && Decodes(s[..i]) && Decodes(s[..j])
    ensures Decodes(s[i..j])
  {
    DecodesConcat(s[..i], s[i..j]);
    assert s[..i] + s[i..j] == s[..j];
  }
}
