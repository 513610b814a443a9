/** The edit engine itself, and what holds of every accepted edit list. */
module EditEngine {
  import opened Bags
  import opened Common
  import opened Utf8
  import opened Positions
  import opened TextEdits
  import opened Patching

  // ----- the loops

  /** `slices.SortFunc` with the ascending comparison: sorted, ties in any order. */
  method SortAscending(ss: seq<Splice>) returns (sorted: seq<Splice>)
    ensures multiset(sorted) == multiset(ss) && Ascending(sorted)
  {
    StableDescendingSorts(ss);
    sorted := Reversed(StableDescending(ss));
    ReversedBag(StableDescending(ss));
    ReversedAscends(StableDescending(ss));
  }

  method VerifyNonOverlapping(ranges: seq<Splice>) returns (ok: bool)
    requires forall s <- ranges :: s.start <= s.end
    ensures ok <==> PairwiseDisjoint(ranges)
  {
    if |ranges| < 2 { return true; }
    var sorted := SortAscending(ranges);
    SameMembers(ranges, sorted);
    NeighboursDecide(sorted);
    assert PairwiseDisjoint(sorted) <==> PairwiseDisjoint(ranges) by {
      DisjointIsOrderFree(sorted);
      DisjointIsOrderFree(ranges);
    }
    hide PairwiseDisjoint;
    for i := 1 to |sorted|
      invariant forall k :: 0 < k < i ==> sorted[k - 1].end <= sorted[k].start
    {
      if sorted[i - 1].end > sorted[i].start { return false; }
    }
    ok := true;
  }

  function CheckedSplices(text: Text, edits: seq<TextEdit>): Result<seq<Splice>, EditError> {
    match ResolveAll(text, edits)
    case Failure(e) => Failure(e)
    case Success(ss) => if PairwiseDisjoint(ss) then Success(ss) else Failure(OverlappingEdits)
  }

  method ResolveRanges(text: Text, edits: seq<TextEdit>) returns (r: Result<seq<Splice>, EditError>)
    ensures r == CheckedSplices(text, edits)
  {
    hide PositionToOffset, PairwiseDisjoint;
    var ranges: seq<Splice> := [];
    for i := 0 to |edits|
      invariant ResolveAll(text, edits[..i]) == Success(ranges)
    {
      var edit := edits[i];
      assert edits[..i + 1][..i] == edits[..i];
      var start := FindOffset(text, edit.range.startLine, edit.range.startColumn);
      if start.Failure? {
        FirstFailureWins(text, edits, i);
        return Failure(BadStart(start.error));
      }
      var end := FindOffset(text, edit.range.endLine, edit.range.endColumn);
      if end.Failure? {
        FirstFailureWins(text, edits, i);
        return Failure(BadEnd(end.error));
      }
      if start.value > end.value {
        FirstFailureWins(text, edits, i);
        return Failure(StartAfterEnd);
      }
      ranges := ranges + [Splice(start.value, end.value, edit.newText)];
    }
    assert edits[..|edits|] == edits;
    ResolvedInText(text, edits);
    var disjoint := VerifyNonOverlapping(ranges);
    r := if disjoint then Success(ranges) else Failure(OverlappingEdits);
  }

  lemma {:induction false} FirstFailureWins(text: Text, edits: seq<TextEdit>, i: nat)
    requires i < |edits| && ResolveAll(text, edits[..i]).Success? && Resolve(text, edits[i]).Failure?
    ensures ResolveAll(text, edits) == Failure(Resolve(text, edits[i]).error)
    decreases |edits|
  {
    hide Resolve;
    var n := |edits| - 1;
    if i == n {
      assert edits[..i] == edits[..n];
    } else {
      assert edits[..n][..i] == edits[..i];
      FirstFailureWins(text, edits[..n], i);
    }
  }

  /** Each target ends where the one spliced before it starts, or earlier. */
  predicate SplicesBackwards(text: Text, targets: seq<Splice>) {
    (forall k :: 0 <= k < |targets| ==> targets[k].start <= targets[k].end <= |text|)
    && forall k :: 0 < k < |targets| ==> targets[k].end <= targets[k - 1].start
  }

  lemma RendersBackwards(text: Text, targets: seq<Splice>)
    requires RendersFrom(text, 0, Reversed(targets))
    ensures SplicesBackwards(text, targets)
  {
    hide Reversed;
    var up := Reversed(targets);
    forall k | 0 <= k < |targets| ensures targets[k].start <= targets[k].end <= |text| {
      assert targets[k] == up[|up| - 1 - k] && up[|up| - 1 - k] in up;
    }
    forall k | 0 < k < |targets| ensures targets[k].end <= targets[k - 1].start {
      assert targets[k] == up[|up| - 1 - k] && targets[k - 1] == up[|up| - k];
    }
  }

  lemma BackwardsAt(text: Text, targets: seq<Splice>, k: nat)
    requires SplicesBackwards(text, targets) && k < |targets|
    ensures targets[k].start <= targets[k].end <= |text|
    ensures k + 1 < |targets| ==> targets[k + 1].end <= targets[k].start
  {
  }

  lemma ReversedLast<T>(s: seq<T>, x: T)
    ensures Reversed(s + [x]) == [x] + Reversed(s)
  {
  }

  /** The splicing loop, back to front. */
  method SpliceAll(text: Text, targets: seq<Splice>) returns (patched: Text)
    requires RendersFrom(text, 0, Reversed(targets))
    ensures patched == Render(text, 0, Reversed(targets))
  {
    RendersBackwards(text, targets);
    patched := text;
    ghost var from := |text|;
    ghost var done: seq<Splice> := [];
    NothingSpliced(text);
    hide Render, RendersFrom, Spliced, SplicesBackwards, Upward;
    UpwardEnds(targets);
    if targets != [] { BackwardsAt(text, targets, 0); }
    for i := 0 to |targets|
      invariant 0 <= from && done == Upward(targets, i) && Spliced(text, patched, from, done)
      invariant i < |targets| ==> targets[i].end <= from
    {
      var target := targets[i];
      BackwardsAt(text, targets, i);
      UpwardNext(targets, i);
      SpliceOne(text, patched, target, from, done);
      patched := patched[..target.start] + target.replaceWith + patched[target.end..];
      from, done := target.start, [target] + done;
    }
    SplicedRenders(text, patched, from, done);
  }

  /** The first `n` targets from the front of the text to its end. */
  ghost function Upward(targets: seq<Splice>, n: nat): seq<Splice>
    requires n <= |targets|
  {
    Reversed(targets[..n])
  }

  lemma UpwardEnds(targets: seq<Splice>)
    ensures Upward(targets, 0) == [] && Upward(targets, |targets|) == Reversed(targets)
  {
    assert targets[..|targets|] == targets;
  }

  lemma UpwardNext(targets: seq<Splice>, n: nat)
    requires n < |targets|
    ensures Upward(targets, n + 1) == [targets[n]] + Upward(targets, n)
  {
    assert targets[..n + 1] == targets[..n] + [targets[n]];
    ReversedLast(targets[..n], targets[n]);
  }

  /** Everything from `from` on is in its final form, everything before it untouched. */
  ghost predicate Spliced(text: Text, patched: Text, from: nat, done: seq<Splice>) {
    from <= |text| && RendersFrom(text, from, done) && patched == text[..from] + Render(text, from, done)
  }

  lemma NothingSpliced(text: Text)
    ensures Spliced(text, text, |text|, [])
  {
    assert Render(text, |text|, []) == [];
    assert text[..|text|] + [] == text;
  }

  lemma SplicedRenders(text: Text, patched: Text, from: nat, done: seq<Splice>)
    requires Spliced(text, patched, from, done) && RendersFrom(text, 0, done)
    ensures patched == Render(text, 0, done)
  {
    hide Render;
    RenderPrefix(text, 0, from, done);
    assert text[0..from] == text[..from];
  }

  lemma RenderPrefix(text: Text, from: nat, middle: nat, ss: seq<Splice>)
    requires from <= middle <= |text| && RendersFrom(text, middle, ss)
    ensures Render(text, from, ss) == text[from..middle] + Render(text, middle, ss)
  {
    if ss == [] {
      assert text[from..] == text[from..middle] + text[middle..];
    } else {
      assert text[from..ss[0].start] == text[from..middle] + text[middle..ss[0].start];
      var gap, more, put, rest := text[from..middle], text[middle..ss[0].start], ss[0].replaceWith,
                                  Render(text, ss[0].end, ss[1..]);
      Regroup(gap, more, put);
      Regroup(gap, more + put, rest);
    }
  }

  lemma SpliceOne(text: Text, patched: Text, target: Splice, from: nat, done: seq<Splice>)
    requires target.start <= target.end <= from && Spliced(text, patched, from, done)
    ensures from <= |patched|
    ensures Spliced(text, patched[..target.start] + target.replaceWith + patched[target.end..],
                    target.start, [target] + done)
  {
    hide Render;
    var rest := Render(text, target.end, done);
    RenderPrefix(text, target.end, from, done);
    RenderFirst(text, target, done);
    assert patched[..target.start] == text[..target.start];
    assert patched[target.end..] == rest;
  }

  lemma RendersFirst(text: Text, target: Splice, done: seq<Splice>)
    requires target.start <= target.end <= |text| && RendersFrom(text, target.end, done)
    ensures RendersFrom(text, target.start, [target] + done)
  {
    var ss := [target] + done;
    assert forall s :: s in ss ==> s == target || s in done;
    forall i | 0 < i < |ss| ensures ss[i - 1].end <= ss[i].start {
      if i > 1 { assert ss[i] == done[i - 1] && ss[i - 1] == done[i - 2]; }
    }
  }

  lemma RenderFirst(text: Text, target: Splice, done: seq<Splice>)
    requires target.start <= target.end <= |text| && RendersFrom(text, target.end, done)
    ensures RendersFrom(text, target.start, [target] + done)
    ensures Render(text, target.start, [target] + done) == target.replaceWith + Render(text, target.end, done)
  {
    RendersFirst(text, target, done);
    hide RendersFrom;
    var ss := [target] + done;
    assert ss[0] == target && ss[1..] == done;
    assert Render(text, target.start, ss)
        == text[target.start..target.start] + target.replaceWith + Render(text, target.end, done);
    hide Render;
    assert text[target.start..target.start] + target.replaceWith == target.replaceWith;
  }

  method ApplyTextEdits(text: Text, edits: seq<TextEdit>) returns (r: Result<Text, EditError>)
    ensures r == PatchText(text, edits)
  {
    var ranges := ResolveRanges(text, edits);
    if ranges.Failure? { return Failure(ranges.error); }
    hide PairwiseDisjoint;
    ResolvedInText(text, edits);
    var targets := StableDescending(ranges.value);
    EngineOrderRenders(text, ranges.value);
    var patched := SpliceAll(text, targets);
    RenderSubstitutes(text, 0, EngineOrder(ranges.value));
    EngineOrderSubstitutes(text, ranges.value);
    r := Success(patched);
  }

  // ----- what holds of every accepted list

  /** Splicing is also the left-to-right rendering of the sorted list. */
  lemma PatchRenders(text: Text, edits: seq<TextEdit>)
    requires PatchText(text, edits).Success?
    ensures ResolveAll(text, edits).Success?
    ensures var up := EngineOrder(ResolveAll(text, edits).value);
            RendersFrom(text, 0, up) && PatchText(text, edits) == Success(Render(text, 0, up))
  {
    hide PairwiseDisjoint, Substitute, Render;
    var ss := ResolveAll(text, edits).value;
    ResolvedInText(text, edits);
    EngineOrderRenders(text, ss);
    RenderSubstitutes(text, 0, EngineOrder(ss));
    EngineOrderSubstitutes(text, ss);
  }

  /** Net growth of the text. */
  function Growth(ss: seq<Splice>): int {
    if ss == [] then 0 else |ss[0].replaceWith| - (ss[0].end - ss[0].start) + Growth(ss[1..])
  }

  lemma {:induction false} RenderLength(text: Text, from: nat, ss: seq<Splice>)
    requires from <= |text| && RendersFrom(text, from, ss)
    ensures |Render(text, from, ss)| == |text| - from + Growth(ss)
    decreases |ss|
  {
    if ss != [] {
      assert ss[0] in ss;
      LaterStarts(ss);
      RenderLength(text, ss[0].end, ss[1..]);
    }
  }

  lemma {:induction false} GrowthOfInsert(x: Splice, ss: seq<Splice>)
    ensures Growth(Insert(x, ss)) == Growth([x]) + Growth(ss)
  {
    if ss != [] && AppliesBefore(ss[0], x) {
      GrowthOfInsert(x, ss[1..]);
      assert Insert(x, ss)[1..] == Insert(x, ss[1..]);
    } else {
      assert ([x] + ss)[1..] == ss;
    }
  }

  lemma {:induction false} GrowthConcat(x: seq<Splice>, y: seq<Splice>)
    ensures Growth(x + y) == Growth(x) + Growth(y)
  {
    if x == [] {
      assert x + y == y;
    } else {
      GrowthConcat(x[1..], y);
      assert (x + y)[1..] == x[1..] + y;
    }
  }

  lemma {:induction false} GrowthOfEngineOrder(ss: seq<Splice>)
    ensures Growth(StableDescending(ss)) == Growth(ss)
    ensures Growth(Reversed(ss)) == Growth(ss)
  {
    if ss != [] {
      GrowthOfEngineOrder(ss[1..]);
      GrowthOfInsert(ss[0], StableDescending(ss[1..]));
      GrowthConcat(Reversed(ss[1..]), [ss[0]]);
    }
  }

  /** The patched text is longer by exactly what the edits add and remove. */
  lemma PatchLength(text: Text, edits: seq<TextEdit>)
    requires PatchText(text, edits).Success?
    ensures |PatchText(text, edits).value| == |text| + Growth(ResolveAll(text, edits).value)
  {
    hide PatchText;
    PatchRenders(text, edits);
    var ss := ResolveAll(text, edits).value;
    RenderLength(text, 0, EngineOrder(ss));
    GrowthOfEngineOrder(ss);
    GrowthOfEngineOrder(StableDescending(ss));
  }

  /** A well-formed text edited with well-formed texts stays well formed. */
  lemma PatchStaysWellFormed(text: Text, edits: seq<TextEdit>)
    requires WellFormed(text) && forall e <- edits :: WellFormed(e.newText)
    requires PatchText(text, edits).Success?
    ensures WellFormed(PatchText(text, edits).value)
  {
    hide WellFormed, Decodes, PatchText, PairwiseDisjoint, Substitute, Render;
    PatchRenders(text, edits);
    var ss := ResolveAll(text, edits).value;
    DecodesExactlyWellFormed(text);
    forall s | s in ss ensures SplitsWellFormed(text, s) {
      ResolvedInText(text, edits);
      var i :| 0 <= i < |ss| && ss[i] == s;
      assert edits[i] in edits;
      DecodesExactlyWellFormed(edits[i].newText);
      ResolvedSplits(text, edits[i]);
    }
    ReversedBag(StableDescending(ss));
    SameMembers(ss, EngineOrder(ss));
    EmptyDecodes();
    assert text[..0] == [];
    RenderDecodes(text, 0, EngineOrder(ss));
    DecodesExactlyWellFormed(Render(text, 0, EngineOrder(ss)));
  }

  lemma EmptyDecodes()
    ensures Decodes([])
  {
  }

  predicate SplitsWellFormed(text: Text, s: Splice) {
    s.start <= s.end <= |text| && Decodes(text[..s.start]) && Decodes(text[..s.end]) && Decodes(s.replaceWith)
  }

  lemma ResolvedSplits(text: Text, edit: TextEdit)
    requires Decodes(text) && Decodes(edit.newText) && Resolve(text, edit).Success?
    ensures SplitsWellFormed(text, Resolve(text, edit).value)
  {
    hide PositionToOffset, Decodes;
    PositionsSplitWellFormed(text, edit.range.startLine, edit.range.startColumn);
    PositionsSplitWellFormed(text, edit.range.endLine, edit.range.endColumn);
  }

  lemma {:induction false} RenderDecodes(text: Text, from: nat, ss: seq<Splice>)
    requires Decodes(text) && from <= |text| && Decodes(text[..from]) && RendersFrom(text, from, ss)
    requires forall s <- ss :: SplitsWellFormed(text, s)
    ensures Decodes(Render(text, from, ss))
    decreases |ss|
  {
    hide Decodes;
    if ss == [] {
      assert text[..|text|] == text;
      DecodesBetween(text, from, |text|);
    } else {
      assert ss[0] in ss && SplitsWellFormed(text, ss[0]);
      LaterStarts(ss);
      RenderDecodes(text, ss[0].end, ss[1..]);
      DecodesBetween(text, from, ss[0].start);
      var gap, rest := text[from..ss[0].start], Render(text, ss[0].end, ss[1..]);
      DecodesConcat(ss[0].replaceWith, rest);
      DecodesConcat(gap, ss[0].replaceWith + rest);
      assert gap + ss[0].replaceWith + rest == gap + (ss[0].replaceWith + rest);
    }
  }
}
