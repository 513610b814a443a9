/** Applying a list of LSP text edits to one text. */
module TextEdits {
  import opened Common
  import opened Utf8
  import opened Positions

  datatype Range = Range(startLine: int, startColumn: int, endLine: int, endColumn: int)

  datatype TextEdit = TextEdit(range: Range, newText: Text, annotation: Option<string>)

  /** A text edit whose positions have been resolved to byte offsets. */
  datatype Splice = Splice(start: nat, end: nat, replaceWith: Text)

  datatype EditError =
    | BadStart(position: PositionError)
    | BadEnd(position: PositionError)
    | StartAfterEnd
    | OverlappingEdits

  // ----- what an edit list means

  function Resolve(text: Text, edit: TextEdit): Result<Splice, EditError> {
    match PositionToOffset(text, edit.range.startLine, edit.range.startColumn)
    case Failure(e) => Failure(BadStart(e))
    case Success(start) =>
      match PositionToOffset(text, edit.range.endLine, edit.range.endColumn)
      case Failure(e) => Failure(BadEnd(e))
      case Success(end) =>
        if start > end then Failure(StartAfterEnd) else Success(Splice(start, end, edit.newText))
  }

  /** All edits resolved in list order; the first failure is the one reported. */
  function ResolveAll(text: Text, edits: seq<TextEdit>): Result<seq<Splice>, EditError> {
    if edits == [] then Success([]) else
      var init := ResolveAll(text, edits[..|edits| - 1]);
      if init.Failure? then init else
        match Resolve(text, edits[|edits| - 1])
        case Failure(e) => Failure(e)
        case Success(s) => Success(init.value + [s])
  }

  /** Half-open ranges that share no byte; touching ranges are disjoint. */
  predicate Disjoint(a: Splice, b: Splice) { a.end <= b.start || b.end <= a.start }

  predicate PairwiseDisjoint(ss: seq<Splice>) {
    forall i, j :: 0 <= i < j < |ss| ==> Disjoint(ss[i], ss[j])
  }

  predicate InText(text: Text, ss: seq<Splice>) {
    forall s <- ss :: s.start <= s.end <= |text|
  }

  /** The splices with range exactly [start, end), in list order. */
  function Keyed(ss: seq<Splice>, start: nat, end: nat): seq<Splice> {
    if ss == [] then []
    else (if ss[0].start == start && ss[0].end == end then [ss[0]] else []) + Keyed(ss[1..], start, end)
  }

  /** The splices that replace a non-empty range starting at `p`. */
  function Starting(ss: seq<Splice>, p: nat): seq<Splice> {
    if ss == [] then []
    else (if ss[0].start == p < ss[0].end then [ss[0]] else []) + Starting(ss[1..], p)
  }

  function Texts(ss: seq<Splice>): Text {
    if ss == [] then [] else ss[0].replaceWith + Texts(ss[1..])
  }

  function Insertions(ss: seq<Splice>, p: nat): Text { Texts(Keyed(ss, p, p)) }

  predicate Covered(ss: seq<Splice>, p: nat) { exists s <- ss :: s.start <= p < s.end }

  /** What comes out at offset `p`: the texts inserted there in list order, then the
      text of the range that starts there, then the byte itself unless some range
      covers it. */
  function Emitted(text: Text, ss: seq<Splice>, p: nat): Text {
    Insertions(ss, p) + Texts(Starting(ss, p))
    + if p < |text| && !Covered(ss, p) then [text[p]] else []
  }

  /** Simultaneous substitution, offset by offset from `p` to the end of the text. */
  function Substitute(text: Text, ss: seq<Splice>, p: nat): Text
    requires p <= |text|
    decreases |text| - p
  {
    Emitted(text, ss, p) + if p == |text| then [] else Substitute(text, ss, p + 1)
  }

  function Reversed<T>(s: seq<T>): (r: seq<T>)
    ensures |r| == |s| && forall k :: 0 <= k < |s| ==> r[k] == s[|s| - 1 - k]
  {
    if s == [] then [] else Reversed(s[1..]) + [s[0]]
  }

  /** What the engine computes for an edit list: simultaneous substitution, with
      insertions at one offset in reverse list order. */
  function PatchText(text: Text, edits: seq<TextEdit>): Result<Text, EditError> {
    match ResolveAll(text, edits)
    case Failure(e) => Failure(e)
    case Success(ss) =>
      if PairwiseDisjoint(ss) then Success(Substitute(text, Reversed(ss), 0))
      else Failure(OverlappingEdits)
  }

  lemma ResolveInText(text: Text, edit: TextEdit)
    requires Resolve(text, edit).Success?
    ensures Resolve(text, edit).value.start <= Resolve(text, edit).value.end <= |text|
  {
    hide PositionToOffset;
    NeverInsideLineEnd(text, edit.range.endLine, edit.range.endColumn);
  }

  lemma {:induction false} ResolvedInText(text: Text, edits: seq<TextEdit>)
    requires ResolveAll(text, edits).Success?
    ensures InText(text, ResolveAll(text, edits).value)
    ensures |ResolveAll(text, edits).value| == |edits|
    ensures forall i :: 0 <= i < |edits| ==> Resolve(text, edits[i]) == Success(ResolveAll(text, edits).value[i])
  {
    hide Resolve;
    if edits != [] {
      ResolvedInText(text, edits[..|edits| - 1]);
      ResolveInText(text, edits[|edits| - 1]);
    }
  }

  // ----- the order of application

  /** `a` goes before `b` when applying: larger start first, then larger end. */
  predicate AppliesBefore(a: Splice, b: Splice) {
    a.start > b.start || (a.start == b.start && a.end > b.end)
  }

  predicate Descending(ss: seq<Splice>) {
    forall i, j :: 0 <= i < j < |ss| ==> !AppliesBefore(ss[j], ss[i])
  }

  function Insert(x: Splice, ss: seq<Splice>): (r: seq<Splice>)
    ensures multiset(r) == multiset(ss) + multiset{x}
  {
    if ss == [] || !AppliesBefore(ss[0], x) then [x] + ss
    else
      assert ss == [ss[0]] + ss[1..];
      [ss[0]] + Insert(x, ss[1..])
  }

  /** `slices.SortStableFunc` with the descending comparison. */
  function StableDescending(ss: seq<Splice>): (r: seq<Splice>)
    ensures multiset(r) == multiset(ss)
  {
    if ss == [] then []
    else
      assert ss == [ss[0]] + ss[1..];
      Insert(ss[0], StableDescending(ss[1..]))
  }

  lemma {:induction false} InsertDescending(x: Splice, ss: seq<Splice>)
    requires Descending(ss)
    ensures Descending(Insert(x, ss))
  {
    if ss != [] && AppliesBefore(ss[0], x) {
      InsertDescending(x, ss[1..]);
      var r := Insert(x, ss[1..]);
      forall k | 0 <= k < |r| ensures !AppliesBefore(r[k], ss[0]) {
        assert r[k] in multiset(r);
        if r[k] != x { assert r[k] in multiset(ss[1..]); }
      }
    }
  }

  lemma {:induction false} StableDescendingSorts(ss: seq<Splice>)
    ensures Descending(StableDescending(ss))
  {
    if ss != [] {
      StableDescendingSorts(ss[1..]);
      InsertDescending(ss[0], StableDescending(ss[1..]));
    }
  }

  /** Stability: splices of one range keep their list order. */
  lemma {:induction false} StableDescendingKeeps(ss: seq<Splice>, a: nat, b: nat)
    ensures Keyed(StableDescending(ss), a, b) == Keyed(ss, a, b)
  {
    hide Keyed;
    if ss != [] {
      StableDescendingKeeps(ss[1..], a, b);
      InsertKeyed(ss[0], StableDescending(ss[1..]), a, b);
      assert [ss[0]] + ss[1..] == ss;
      KeyedFirst(ss[0], ss[1..], a, b);
    }
  }

  lemma KeyedFirst(x: Splice, ss: seq<Splice>, a: nat, b: nat)
    ensures Keyed([x] + ss, a, b) == (if x.start == a && x.end == b then [x] else []) + Keyed(ss, a, b)
  {
    assert ([x] + ss)[1..] == ss;
  }

  lemma KeyedNone(a: nat, b: nat)
    ensures Keyed([], a, b) == []
  {
  }

  lemma {:induction false} InsertKeyed(x: Splice, ss: seq<Splice>, a: nat, b: nat)
    ensures Keyed(Insert(x, ss), a, b) == (if x.start == a && x.end == b then [x] else []) + Keyed(ss, a, b)
  {
    hide Keyed;
    if ss != [] && AppliesBefore(ss[0], x) {
      InsertKeyed(x, ss[1..], a, b);
      KeyedFirst(ss[0], Insert(x, ss[1..]), a, b);
      KeyedFirst(ss[0], ss[1..], a, b);
      assert [ss[0]] + ss[1..] == ss;
    } else {
      KeyedFirst(x, ss, a, b);
    }
  }

  // ----- the overlap check

  predicate Ascending(ss: seq<Splice>) {
    forall i, j :: 0 <= i < j < |ss| ==> !AppliesBefore(ss[i], ss[j])
  }

  predicate Chained(ss: seq<Splice>) {
    forall i :: 0 < i < |ss| ==> ss[i - 1].end <= ss[i].start
  }

  /** Comparing neighbours is enough: in a list sorted by start and end, no two
      neighbours overlap iff no two splices do. */
  lemma NeighboursDecide(ss: seq<Splice>)
    requires Ascending(ss) && forall s <- ss :: s.start <= s.end
    ensures Chained(ss) <==> PairwiseDisjoint(ss)
  {
    if Chained(ss) {
      forall i, j | 0 <= i < j < |ss| ensures Disjoint(ss[i], ss[j]) { ChainedFrom(ss, i, j); }
    }
    if PairwiseDisjoint(ss) {
      forall i | 0 < i < |ss| ensures ss[i - 1].end <= ss[i].start {
        assert Disjoint(ss[i - 1], ss[i]) && !AppliesBefore(ss[i - 1], ss[i]);
      }
    }
  }

  lemma {:induction false} ChainedFrom(ss: seq<Splice>, i: nat, j: nat)
    requires Chained(ss) && i < j < |ss| && forall s <- ss :: s.start <= s.end
    ensures ss[i].end <= ss[j].start
  {
    if i + 1 < j { ChainedFrom(ss, i, j - 1); }
  }

  /** Disjointness read off the bag of splices, so that order cannot matter. */
  ghost predicate DisjointBag(m: multiset<Splice>) {
    (forall a, b :: a in m && b in m && a != b ==> Disjoint(a, b))
    && (forall a :: m[a] >= 2 ==> Disjoint(a, a))
  }

  lemma DisjointIsOrderFree(ss: seq<Splice>)
    ensures PairwiseDisjoint(ss) <==> DisjointBag(multiset(ss))
  {
    if PairwiseDisjoint(ss) {
      forall a, b | a in multiset(ss) && b in multiset(ss) && a != b ensures Disjoint(a, b) {
        var i :| 0 <= i < |ss| && ss[i] == a;
        var j :| 0 <= j < |ss| && ss[j] == b;
        if j < i { assert Disjoint(ss[j], ss[i]); }
      }
      forall a | multiset(ss)[a] >= 2 ensures Disjoint(a, a) {
        var i, j := TwoOccurrences(ss, a);
      }
    }
    if DisjointBag(multiset(ss)) {
      forall i, j | 0 <= i < j < |ss| ensures Disjoint(ss[i], ss[j]) {
        if ss[i] == ss[j] {
          assert ss == ss[..i] + [ss[i]] + ss[i + 1..j] + [ss[j]] + ss[j + 1..];
        }
      }
    }
  }

  lemma {:induction false} TwoOccurrences(ss: seq<Splice>, a: Splice) returns (i: nat, j: nat)
    requires multiset(ss)[a] >= 2
    ensures i < j < |ss| && ss[i] == a && ss[j] == a
  {
    var n := |ss| - 1;
    assert ss == ss[..n] + [ss[n]];
    if ss[n] == a {
      assert a in multiset(ss[..n]);
      j := n;
      i :| 0 <= i < n && ss[..n][i] == a;
    } else {
      i, j := TwoOccurrences(ss[..n], a);
    }
  }
}
