/** What a caller of the edit engine gets: which bytes one edit replaces, and which of
    several possible refusals a list meets. */
module EditLaws {
  import opened Common
  import opened Utf8
  import opened Positions
  import opened TextEdits
  import opened Patching
  import opened EditEngine

  // ----- one edit

  /** The edit's two positions are those of offsets `a` and `b`. */
  predicate Names(text: Text, e: TextEdit, a: nat, b: nat) {
    a <= b <= |text| && Addressable(text, a) && Addressable(text, b)
    && PositionOf(text, a) == (e.range.startLine, e.range.startColumn)
    && PositionOf(text, b) == (e.range.endLine, e.range.endColumn)
  }

  /** An edit that names the bytes from `a` to `b` replaces exactly those, by its text. */
  lemma ResolvesToNamed(text: Text, e: TextEdit, a: nat, b: nat)
    requires Names(text, e, a, b)
    ensures Resolve(text, e) == Success(Splice(a, b, e.newText))
  {
    hide PositionToOffset, Addressable, PositionOf;
    PositionExact(text, e.range.startLine, e.range.startColumn, a);
    PositionExact(text, e.range.endLine, e.range.endColumn, b);
  }

  /** And an edit that resolves at all names what it replaces. */
  lemma ResolvedIsNamed(text: Text, e: TextEdit)
    requires Resolve(text, e).Success?
    ensures var s := Resolve(text, e).value; Names(text, e, s.start, s.end) && s.replaceWith == e.newText
  {
    var s := Resolve(text, e).value;
    ResolveInText(text, e);
    hide PositionToOffset, Addressable, PositionOf;
    PositionExact(text, e.range.startLine, e.range.startColumn, s.start);
    PositionExact(text, e.range.endLine, e.range.endColumn, s.end);
  }

  /** The three refusals of one edit, exactly. */
  lemma ResolveRefusals(text: Text, e: TextEdit)
    ensures var first := PositionToOffset(text, e.range.startLine, e.range.startColumn);
            var last := PositionToOffset(text, e.range.endLine, e.range.endColumn);
            (forall p :: Resolve(text, e) == Failure(BadStart(p)) <==> first == Failure(p))
            && (forall p :: Resolve(text, e) == Failure(BadEnd(p)) <==> first.Success? && last == Failure(p))
            && (Resolve(text, e) == Failure(StartAfterEnd)
                <==> first.Success? && last.Success? && first.value > last.value)
            && Resolve(text, e) != Failure(OverlappingEdits)
  {
    hide PositionToOffset;
  }

  /** One edit: the text before it, its own text, the text after it. */
  lemma OneEditPatches(text: Text, e: TextEdit, a: nat, b: nat)
    requires Names(text, e, a, b)
    ensures PatchText(text, [e]) == Success(text[..a] + e.newText + text[b..])
  {
    ResolvesToNamed(text, e, a, b);
    OneResolved(text, e);
    hide Names, Resolve, ResolveAll, Substitute;
    PatchRenders(text, [e]);
    var s := Splice(a, b, e.newText);
    assert Reversed(StableDescending([s])) == [s] by { OneInOrder(s); }
    assert [s][1..] == [] && text[0..a] == text[..a];
  }

  lemma OneInOrder(s: Splice)
    ensures Reversed(StableDescending([s])) == [s]
  {
    assert [s][1..] == [];
    assert StableDescending([s]) == [s];
  }

  lemma ResolveAllSnoc(text: Text, init: seq<TextEdit>, e: TextEdit)
    requires ResolveAll(text, init).Success? && Resolve(text, e).Success?
    ensures ResolveAll(text, init + [e]) == Success(ResolveAll(text, init).value + [Resolve(text, e).value])
  {
    hide Resolve;
    assert (init + [e])[..|init|] == init;
  }

  lemma OneResolved(text: Text, e: TextEdit)
    requires Resolve(text, e).Success?
    ensures ResolveAll(text, [e]) == Success([Resolve(text, e).value])
    ensures PatchText(text, [e]).Success?
  {
    assert ResolveAll(text, []) == Success([]);
    assert [] + [e] == [e] && [] + [Resolve(text, e).value] == [Resolve(text, e).value];
    ResolveAllSnoc(text, [], e);
    hide Resolve, Substitute, ResolveAll;
  }

  lemma NoEditPatches(text: Text)
    ensures PatchText(text, []) == Success(text)
  {
    assert Reversed<Splice>([]) == [];
    SubstituteNothing(text, 0);
  }

  // ----- a list of edits

  /** Two edits of a list replace bytes in common. */
  predicate Overlap(text: Text, e: TextEdit, f: TextEdit) {
    Resolve(text, e).Success? && Resolve(text, f).Success?
    && var s, t := Resolve(text, e).value, Resolve(text, f).value; s.start < t.end && t.start < s.end
  }

  /** A list is accepted exactly when every edit resolves and no two overlap; when all
      resolve and two overlap, that is the error. */
  lemma PatchAcceptsExactly(text: Text, edits: seq<TextEdit>)
    ensures PatchText(text, edits).Success?
       <==> (forall e <- edits :: Resolve(text, e).Success?)
            && forall i, j :: 0 <= i < j < |edits| ==> !Overlap(text, edits[i], edits[j])
    ensures PatchText(text, edits) == Failure(OverlappingEdits)
       <==> (forall e <- edits :: Resolve(text, e).Success?)
            && exists i, j :: 0 <= i < j < |edits| && Overlap(text, edits[i], edits[j])
  {
    hide Resolve, Substitute;
    ResolveAllExactly(text, edits);
    if ResolveAll(text, edits).Success? {
      var ss := ResolveAll(text, edits).value;
      ResolvedInText(text, edits);
      forall i, j | 0 <= i < j < |ss| ensures Disjoint(ss[i], ss[j]) <==> !Overlap(text, edits[i], edits[j]) {
        assert ss[i] in ss && ss[j] in ss;
      }
    }
  }

  lemma {:induction false} ResolveAllExactly(text: Text, edits: seq<TextEdit>)
    ensures ResolveAll(text, edits).Success? <==> forall e <- edits :: Resolve(text, e).Success?
    ensures ResolveAll(text, edits) != Failure(OverlappingEdits)
  {
    hide Resolve;
    if edits != [] {
      var n := |edits| - 1;
      ResolveAllExactly(text, edits[..n]);
      assert Resolve(text, edits[n]) != Failure(OverlappingEdits) by { ResolveRefusals(text, edits[n]); }
      assert edits == edits[..n] + [edits[n]];
      assert forall e :: e in edits <==> e in edits[..n] || e == edits[n];
    }
  }

  /** Otherwise the error is that of the first edit that does not resolve. */
  lemma PatchReportsFirst(text: Text, edits: seq<TextEdit>, i: nat)
    requires i < |edits| && Resolve(text, edits[i]).Failure?
    requires forall k :: 0 <= k < i ==> Resolve(text, edits[k]).Success?
    ensures PatchText(text, edits) == Failure(Resolve(text, edits[i]).error)
  {
    hide Resolve;
    ResolveAllExactly(text, edits[..i]);
    FirstFailureWins(text, edits, i);
  }

  /** Two edits, the second after the first: what stands before, between and after them
      stays, whichever order the list gives them in. */
  lemma TwoEditsPatch(text: Text, e: TextEdit, f: TextEdit, a: nat, b: nat, c: nat, d: nat)
    requires Names(text, e, a, b) && Names(text, f, c, d) && b <= c && a < c
    ensures PatchText(text, [e, f]) == Success(text[..a] + e.newText + text[b..c] + f.newText + text[d..])
    ensures PatchText(text, [f, e]) == PatchText(text, [e, f])
  {
    TwoPatch(text, [e, f], e, f, a, b, c, d);
    TwoPatch(text, [f, e], e, f, a, b, c, d);
  }

  lemma TwoPatch(text: Text, edits: seq<TextEdit>, e: TextEdit, f: TextEdit, a: nat, b: nat, c: nat, d: nat)
    requires Names(text, e, a, b) && Names(text, f, c, d) && b <= c && a < c && edits in {[e, f], [f, e]}
    ensures PatchText(text, edits) == Success(text[..a] + e.newText + text[b..c] + f.newText + text[d..])
  {
    ResolvesToNamed(text, e, a, b);
    ResolvesToNamed(text, f, c, d);
    var s, t := Splice(a, b, e.newText), Splice(c, d, f.newText);
    TwoResolved(text, edits[0], edits[1]);
    TwoInOrder(s, t);
    hide Names, Resolve, ResolveAll, Substitute, StableDescending, Reversed;
    PatchRenders(text, edits);
    TwoRender(text, s, t);
  }

  lemma TwoResolved(text: Text, e: TextEdit, f: TextEdit)
    requires Resolve(text, e).Success? && Resolve(text, f).Success?
    requires Disjoint(Resolve(text, e).value, Resolve(text, f).value)
    ensures ResolveAll(text, [e, f]) == Success([Resolve(text, e).value, Resolve(text, f).value])
    ensures PatchText(text, [e, f]).Success?
  {
    hide Resolve, Substitute, ResolveAll;
    var s, t := Resolve(text, e).value, Resolve(text, f).value;
    assert ResolveAll(text, [e, f]) == Success([s, t]) by {
      OneResolved(text, e);
      ResolveAllSnoc(text, [e], f);
      assert [e] + [f] == [e, f] && [s] + [t] == [s, t];
    }
    assert PairwiseDisjoint([s, t]);
  }

  lemma TwoInOrder(s: Splice, t: Splice)
    requires s.start < t.start
    ensures Reversed(StableDescending([s, t])) == [s, t] && Reversed(StableDescending([t, s])) == [s, t]
  {
    assert [s, t][1..] == [t] && [t, s][1..] == [s] && [s][1..] == [] && [t][1..] == [];
    assert StableDescending([s]) == [s] && StableDescending([t]) == [t];
    assert StableDescending([s, t]) == [t, s] && StableDescending([t, s]) == [t, s];
    assert Reversed([t, s]) == [s, t];
  }

  lemma TwoRender(text: Text, s: Splice, t: Splice)
    requires RendersFrom(text, 0, [s, t]) && s.start <= s.end <= t.start <= t.end <= |text|
    ensures Render(text, 0, [s, t])
         == text[..s.start] + s.replaceWith + text[s.end..t.start] + t.replaceWith + text[t.end..]
  {
    assert [s, t][1..] == [t] && [t][1..] == [] && text[0..s.start] == text[..s.start];
    var x, y, z := text[s.end..t.start], t.replaceWith, text[t.end..];
    assert Render(text, s.end, [t]) == x + y + z;
    Regroup(text[..s.start] + s.replaceWith, x + y, z);
    Regroup(text[..s.start] + s.replaceWith, x, y);
  }
}
