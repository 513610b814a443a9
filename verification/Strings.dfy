/** The few string operations of the standard library the model needs, on ASCII case
    and spaces. */
module Strings {
  import opened Sorting
  import opened Utf8

  predicate Space(c: char) { c in {' ', '\t', '\n', '\r', '\U{0B}', '\U{0C}'} }

  function TrimLeft(s: string): string {
    if s != "" && Space(s[0]) then TrimLeft(s[1..]) else s
  }

  function TrimRight(s: string): string {
    if s != "" && Space(s[|s| - 1]) then TrimRight(s[..|s| - 1]) else s
  }

  function TrimSpace(s: string): string { TrimRight(TrimLeft(s)) }

  function LowerChar(c: char): char { if 'A' <= c <= 'Z' then c - 'A' + 'a' else c }

  function ToLower(s: string): (l: string)
    ensures |l| == |s| && forall i :: 0 <= i < |s| ==> l[i] == LowerChar(s[i])
  {
    if s == "" then "" else [LowerChar(s[0])] + ToLower(s[1..])
  }

  /** `strings.Compare(a, b) <= 0`. */
  predicate Leq(a: string, b: string) {
    a == "" || (b != "" && (a[0] < b[0] || (a[0] == b[0] && Leq(a[1..], b[1..]))))
  }

  lemma {:induction false} LeqTotal(a: string, b: string)
    ensures Leq(a, b) || Leq(b, a)
    ensures Leq(a, b) && Leq(b, a) ==> a == b
  {
    if a != "" && b != "" {
      LeqTotal(a[1..], b[1..]);
      assert a == [a[0]] + a[1..] && b == [b[0]] + b[1..];
    }
  }

  lemma {:induction false} LeqTrans(a: string, b: string, c: string)
    requires Leq(a, b) && Leq(b, c)
    ensures Leq(a, c)
  {
    if a != "" && a[0] == b[0] == c[0] { LeqTrans(a[1..], b[1..], c[1..]); }
  }

  lemma LeqOrders()
    ensures TotalOrder(Leq)
  {
    forall a: string, b: string ensures (Leq(a, b) || Leq(b, a)) && (Leq(a, b) && Leq(b, a) ==> a == b) {
      LeqTotal(a, b);
    }
    forall a: string, b: string, c: string | Leq(a, b) && Leq(b, c) ensures Leq(a, c) { LeqTrans(a, b, c); }
  }

  // ----- strings as the bytes Go keeps

  /** The UTF-8 bytes of a string. */
  function Bytes(s: string): Text {
    if s == "" then [] else EncodeRune(s[0] as int) + Bytes(s[1..])
  }

  /** Lexicographic order of bytes. */
  predicate BytesLeq(a: Text, b: Text) {
    a == [] || (b != [] && (a[0] < b[0] || (a[0] == b[0] && BytesLeq(a[1..], b[1..]))))
  }

  lemma {:induction false} BytesLeqAfter(e: Text, a: Text, b: Text)
    ensures BytesLeq(e + a, e + b) <==> BytesLeq(a, b)
  {
    if e == [] {
      assert e + a == a && e + b == b;
    } else {
      BytesLeqAfter(e[1..], a, b);
      assert (e + a)[1..] == e[1..] + a && (e + b)[1..] == e[1..] + b;
    }
  }

  /** The texts part at `k`, where the first has the smaller byte. */
  predicate PartAt(e: Text, f: Text, k: nat) {
    k < |e| && k < |f| && e[..k] == f[..k] && e[k] < f[k]
  }

  /** The higher digits of numbers in base 64 decide before the lower ones. */
  lemma DigitsDecide(c: nat, d: nat)
    requires c < d
    ensures c / 0x40 <= d / 0x40 && (c / 0x40 == d / 0x40 ==> c % 0x40 < d % 0x40)
    ensures c / 0x1000 == c / 0x40 / 0x40 && c / 0x4_0000 == c / 0x1000 / 0x40
    ensures d / 0x1000 == d / 0x40 / 0x40 && d / 0x4_0000 == d / 0x1000 / 0x40
  {
  }

  lemma ThreePart(c: Scalar, d: Scalar) returns (k: nat)
    requires 0x800 <= c < d < 0x1_0000
    ensures PartAt(EncodeRune(c), EncodeRune(d), k)
  {
    DigitsDecide(c, d);
    if c / 0x40 < d / 0x40 { DigitsDecide(c / 0x40, d / 0x40); }
    k := if c / 0x1000 < d / 0x1000 then 0 else if c / 0x40 < d / 0x40 then 1 else 2;
  }

  lemma FourPart(c: Scalar, d: Scalar) returns (k: nat)
    requires 0x1_0000 <= c < d
    ensures PartAt(EncodeRune(c), EncodeRune(d), k)
  {
    DigitsDecide(c, d);
    if c / 0x40 < d / 0x40 { DigitsDecide(c / 0x40, d / 0x40); }
    if c / 0x1000 < d / 0x1000 { DigitsDecide(c / 0x1000, d / 0x1000); }
    k := if c / 0x4_0000 < d / 0x4_0000 then 0 else if c / 0x1000 < d / 0x1000 then 1
         else if c / 0x40 < d / 0x40 then 2 else 3;
  }

  lemma EncodingsPart(c: Scalar, d: Scalar) returns (k: nat)
    requires c < d
    ensures PartAt(EncodeRune(c), EncodeRune(d), k)
  {
    if 0x1_0000 <= c {
      k := FourPart(c, d);
    } else if 0x800 <= c && d < 0x1_0000 {
      k := ThreePart(c, d);
    } else {
      DigitsDecide(c, d);
      k := if 0x80 <= c && d < 0x800 && c / 0x40 == d / 0x40 then 1 else 0;
    }
  }

  lemma PartDecides(e: Text, f: Text, k: nat, a: Text, b: Text)
    requires PartAt(e, f, k)
    ensures BytesLeq(e + a, f + b) && !BytesLeq(f + b, e + a)
  {
    var same, x, y := e[..k], e[k..] + a, f[k..] + b;
    assert e + a == same + x && f + b == same + y;
    BytesLeqAfter(same, x, y);
    BytesLeqAfter(same, y, x);
  }

  /** Comparing characters is comparing bytes. */
  lemma {:induction false} LeqIsByteOrder(a: string, b: string)
    ensures Leq(a, b) <==> BytesLeq(Bytes(a), Bytes(b))
  {
    hide EncodeRune, BytesLeq;
    if a == "" || b == "" {
      EmptyIsLeast(a, b);
    } else {
      var c, d, x, y := a[0] as int, b[0] as int, Bytes(a[1..]), Bytes(b[1..]);
      if c == d {
        LeqIsByteOrder(a[1..], b[1..]);
        BytesLeqAfter(EncodeRune(c), x, y);
      } else if c < d {
        var k := EncodingsPart(c, d);
        PartDecides(EncodeRune(c), EncodeRune(d), k, x, y);
      } else {
        var k := EncodingsPart(d, c);
        PartDecides(EncodeRune(d), EncodeRune(c), k, y, x);
      }
    }
  }

  lemma EmptyIsLeast(a: string, b: string)
    requires a == "" || b == ""
    ensures Leq(a, b) <==> BytesLeq(Bytes(a), Bytes(b))
  {
    assert b != "" ==> Bytes(b) != [];
    assert a != "" ==> Bytes(a) != [];
  }

  /** A set of strings in byte order, as `slices.Sort` leaves it. */
  ghost function Sorted(members: set<string>): (s: seq<string>)
    ensures forall x :: x in s <==> x in members
    ensures SortedBy(Leq, s)
  {
    LeqOrders();
    ListingOf(Leq, members)
  }

  method Sort(members: set<string>) returns (s: seq<string>)
    ensures s == Sorted(members)
  {
    LeqOrders();
    s := SortSet(Leq, members);
  }

  // ----- normalisation

  lemma {:induction false} TrimLeftDone(s: string)
    ensures TrimLeft(s) == "" || !Space(TrimLeft(s)[0])
  {
    if s != "" && Space(s[0]) { TrimLeftDone(s[1..]); }
  }

  lemma {:induction false} TrimRightDone(s: string)
    ensures TrimRight(s) == "" || !Space(TrimRight(s)[|TrimRight(s)| - 1])
    ensures TrimRight(s) <= s
  {
    if s != "" && Space(s[|s| - 1]) { TrimRightDone(s[..|s| - 1]); }
  }

  /** Neither end is a space. */
  predicate Trimmed(s: string) { s == "" || (!Space(s[0]) && !Space(s[|s| - 1])) }

  lemma TrimSpaceTrims(s: string)
    ensures Trimmed(TrimSpace(s))
    ensures Trimmed(s) ==> TrimSpace(s) == s
  {
    TrimLeftDone(s);
    TrimRightDone(TrimLeft(s));
  }

  /** `normalizeLanguage`. */
  function Normalize(s: string): string { ToLower(TrimSpace(s)) }

  predicate Normal(s: string) { Trimmed(s) && forall c <- s :: LowerChar(c) == c }

  lemma LowerKeepsSpaces(c: char)
    ensures Space(LowerChar(c)) <==> Space(c)
    ensures LowerChar(LowerChar(c)) == LowerChar(c)
  {
  }

  /** Normalising yields a normal string and changes no normal one. */
  lemma NormalizeIsIdempotent(s: string)
    ensures Normal(Normalize(s))
    ensures Normal(s) ==> Normalize(s) == s
  {
    var t := TrimSpace(s);
    TrimSpaceTrims(s);
    var n := ToLower(t);
    forall c | c in n ensures LowerChar(c) == c {
      var i :| 0 <= i < |n| && n[i] == c;
      LowerKeepsSpaces(t[i]);
    }
    if t != "" {
      LowerKeepsSpaces(t[0]);
      LowerKeepsSpaces(t[|t| - 1]);
    }
    if Normal(s) {
      forall i | 0 <= i < |s| ensures n[i] == s[i] { assert s[i] in s; }
    }
  }
}
