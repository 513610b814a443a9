/** When the order of an edit list shows in the result. */
module EditOrder {
  import opened Bags
  import opened Common
  import opened Utf8
  import opened Positions
  import opened TextEdits
  import opened Patching

  /** The bag of splices fixes the bag of splices of each range. */
  lemma {:induction false} KeyedCount(ss: seq<Splice>, a: nat, b: nat, s: Splice)
    ensures multiset(Keyed(ss, a, b))[s] == if s.start == a && s.end == b then multiset(ss)[s] else 0
  {
    if ss != [] {
      KeyedCount(ss[1..], a, b, s);
      assert ss == [ss[0]] + ss[1..];
    }
  }

  lemma TextsFirst(x: Splice, ss: seq<Splice>)
    ensures Texts([x] + ss) == x.replaceWith + Texts(ss)
  {
    assert ([x] + ss)[1..] == ss;
  }

  lemma {:induction false} TextsConcat(a: seq<Splice>, b: seq<Splice>)
    ensures |Texts(a + b)| == |Texts(a)| + |Texts(b)|
  {
    if a == [] {
      assert a + b == b;
    } else {
      TextsConcat(a[1..], b);
      TextsFirst(a[0], a[1..] + b);
      assert a + b == [a[0]] + (a[1..] + b);
    }
  }

  lemma {:induction false} TextsLength(a: seq<Splice>, b: seq<Splice>)
    requires multiset(a) == multiset(b)
    ensures |Texts(a)| == |Texts(b)|
    decreases |a|
  {
    hide Texts;
    if a == [] {
      assert |b| == |multiset(b)|;
    } else {
      var i := RemoveLast(a, b);
      TextsLength(a[..|a| - 1], b[..i] + b[i + 1..]);
      TextsConcat(a[..|a| - 1], [b[i]]);
      TextsConcat(b[..i], [b[i]] + b[i + 1..]);
      TextsConcat([b[i]], b[i + 1..]);
      TextsConcat(b[..i], b[i + 1..]);
    }
  }

  /** Equal substitutions whose pieces have equal lengths have equal pieces. */
  lemma {:induction false} PiecesAgree(text: Text, a: seq<Splice>, b: seq<Splice>, p: nat, q: nat)
    requires p <= q <= |text| && Substitute(text, a, p) == Substitute(text, b, p)
    requires forall k :: p <= k <= |text| ==> |Emitted(text, a, k)| == |Emitted(text, b, k)|
    ensures Emitted(text, a, q) == Emitted(text, b, q)
    decreases |text| - p
  {
    hide Emitted;
    var x, y := Emitted(text, a, p), Emitted(text, b, p);
    if p == q {
      assert x == Substitute(text, a, p)[..|x|] && y == Substitute(text, b, p)[..|y|];
    } else {
      assert Substitute(text, a, p + 1) == Substitute(text, a, p)[|x|..];
      assert Substitute(text, b, p + 1) == Substitute(text, b, p)[|y|..];
      PiecesAgree(text, a, b, p + 1, q);
    }
  }

  /** Both lists insert the same text at every offset. */
  ghost predicate InsertAlike(a: seq<Splice>, b: seq<Splice>) {
    forall p: nat :: Insertions(a, p) == Insertions(b, p)
  }

  lemma SamePieces(text: Text, a: seq<Splice>, b: seq<Splice>, p: nat)
    requires multiset(a) == multiset(b) && PairwiseDisjoint(a) && PairwiseDisjoint(b)
    ensures |Emitted(text, a, p)| == |Emitted(text, b, p)|
    ensures Emitted(text, a, p) == Emitted(text, b, p) ==> Insertions(a, p) == Insertions(b, p)
  {
    hide PairwiseDisjoint, Starting, Texts, Keyed;
    forall s ensures multiset(Keyed(a, p, p))[s] == multiset(Keyed(b, p, p))[s] {
      KeyedCount(a, p, p, s);
      KeyedCount(b, p, p, s);
    }
    TextsLength(Keyed(a, p, p), Keyed(b, p, p));
    SameStarting(a, b, p);
    SameMembers(a, b);
    assert Covered(a, p) <==> Covered(b, p);
    var x, y := Insertions(a, p), Insertions(b, p);
    assert x == Emitted(text, a, p)[..|x|] && y == Emitted(text, b, p)[..|y|];
  }

  /** Two disjoint lists of the same splices substitute alike iff they insert alike. */
  lemma SubstitutionsAgreeExactly(text: Text, a: seq<Splice>, b: seq<Splice>)
    requires multiset(a) == multiset(b) && PairwiseDisjoint(a) && PairwiseDisjoint(b)
    requires InText(text, a)
    ensures Substitute(text, a, 0) == Substitute(text, b, 0) <==> InsertAlike(a, b)
  {
    hide PairwiseDisjoint, Substitute, Emitted, Insertions;
    if InsertAlike(a, b) { SameSubstitution(text, a, b); }
    if Substitute(text, a, 0) == Substitute(text, b, 0) {
      forall k: nat ensures |Emitted(text, a, k)| == |Emitted(text, b, k)| { SamePieces(text, a, b, k); }
      forall p: nat ensures Insertions(a, p) == Insertions(b, p) {
        SamePieces(text, a, b, p);
        if p <= |text| {
          PiecesAgree(text, a, b, 0, p);
        } else {
          NothingPastEnd(text, a, b, p);
        }
      }
    }
  }

  lemma NothingPastEnd(text: Text, a: seq<Splice>, b: seq<Splice>, p: nat)
    requires multiset(a) == multiset(b) && InText(text, a) && p > |text|
    ensures Insertions(a, p) == Insertions(b, p)
  {
    SameMembers(a, b);
    EmptyFilters(a, p);
    EmptyFilters(b, p);
  }

  /** The engine meets the list-order rule of LSP 3.17, section "TextEdit[]", exactly
      when the insertions at each offset read the same in list order and reversed. */
  lemma ListOrderExactly(text: Text, edits: seq<TextEdit>)
    requires PatchText(text, edits).Success?
    ensures ResolveAll(text, edits).Success?
    ensures var ss := ResolveAll(text, edits).value;
            PatchText(text, edits) == Success(Substitute(text, ss, 0)) <==> InsertAlike(Reversed(ss), ss)
  {
    hide PairwiseDisjoint, Substitute, Reversed, InsertAlike;
    var ss := ResolveAll(text, edits).value;
    ResolvedInText(text, edits);
    ReversedBag(ss);
    SameMembers(ss, Reversed(ss));
    PermutationStaysDisjoint(ss, Reversed(ss));
    SubstitutionsAgreeExactly(text, Reversed(ss), ss);
  }

  /** Two insertions at the same place come out backwards. */
  lemma ListOrderBroken()
    ensures var here := Range(0, 0, 0, 0);
            PatchText([], [TextEdit(here, [0x61], None), TextEdit(here, [0x62], None)]) == Success([0x62, 0x61])
  {
    var here := Range(0, 0, 0, 0);
    var a, b := TextEdit(here, [0x61], None), TextEdit(here, [0x62], None);
    var s, t := Splice(0, 0, [0x61]), Splice(0, 0, [0x62]);
    BothResolve(a, b, s, t);
    InsertedBackwards(s, t);
    assert Reversed([s, t]) == [t, s];
    hide Reversed, Insertions, Starting, Texts, ResolveAll;
    var none: Text := [];
    assert Emitted(none, [t, s], 0) == [0x62, 0x61];
    assert Substitute(none, [t, s], 0) == [0x62, 0x61] + [];
    assert PairwiseDisjoint([s, t]);
    assert PatchText(none, [a, b]) == Success(Substitute(none, [t, s], 0));
    assert [0x62, 0x61] + [] == [0x62, 0x61];
  }

  lemma TopOfText(text: Text)
    ensures PositionToOffset(text, 0, 0) == Success(0)
  {
    hide DecodeRune, NextByte, LineText;
  }

  lemma BothResolve(a: TextEdit, b: TextEdit, s: Splice, t: Splice)
    requires a.range == b.range == Range(0, 0, 0, 0)
    requires s == Splice(0, 0, a.newText) && t == Splice(0, 0, b.newText)
    ensures ResolveAll([], [a, b]) == Success([s, t])
  {
    TopOfText([]);
    hide PositionToOffset;
    assert Resolve([], a) == Success(s) && Resolve([], b) == Success(t);
    hide Resolve;
    assert [a, b][..1] == [a] && [a][..0] == [];
    assert ResolveAll([], [a]) == Success([] + [s]);
    assert [] + [s] == [s] && [s] + [t] == [s, t];
  }

  lemma InsertedBackwards(s: Splice, t: Splice)
    requires s == Splice(0, 0, [0x61]) && t == Splice(0, 0, [0x62])
    ensures Insertions([t, s], 0) == [0x62, 0x61] && Texts(Starting([t, s], 0)) == []
  {
    KeyedFirst(t, [s], 0, 0);
    KeyedFirst(s, [], 0, 0);
    KeyedNone(0, 0);
    NoneStarts([t, s], 0);
    hide Keyed, Starting;
    assert [s] + [] == [s] && [t] + [s] == [t, s];
    TextsFirst(t, [s]);
    TextsFirst(s, []);
    assert [0x62] + ([0x61] + []) == [0x62, 0x61];
  }

  // ----- permuting the list

  lemma {:induction false} ResolveAllSucceeds(text: Text, edits: seq<TextEdit>)
    ensures ResolveAll(text, edits).Success? <==> forall e <- edits :: Resolve(text, e).Success?
  {
    hide Resolve;
    if edits != [] {
      var n := |edits| - 1;
      ResolveAllSucceeds(text, edits[..n]);
      assert edits == edits[..n] + [edits[n]];
    }
  }

  lemma {:induction false} ResolveAllConcat(text: Text, a: seq<TextEdit>, b: seq<TextEdit>)
    requires ResolveAll(text, a).Success? && ResolveAll(text, b).Success?
    ensures ResolveAll(text, a + b) == Success(ResolveAll(text, a).value + ResolveAll(text, b).value)
    decreases |b|
  {
    hide Resolve;
    if b == [] {
      assert a + b == a;
      assert ResolveAll(text, a).value + [] == ResolveAll(text, a).value;
    } else {
      var n := |b| - 1;
      ResolveAllConcat(text, a, b[..n]);
      assert (a + b)[..|a + b| - 1] == a + b[..n] && (a + b)[|a + b| - 1] == b[n];
      var s := Resolve(text, b[n]).value;
      assert ResolveAll(text, a).value + ResolveAll(text, b[..n]).value + [s]
          == ResolveAll(text, a).value + (ResolveAll(text, b[..n]).value + [s]);
    }
  }

  lemma {:induction false} ResolvedBag(text: Text, a: seq<TextEdit>, b: seq<TextEdit>)
    requires multiset(a) == multiset(b) && ResolveAll(text, a).Success?
    ensures ResolveAll(text, b).Success?
    ensures multiset(ResolveAll(text, b).value) == multiset(ResolveAll(text, a).value)
    decreases |a|
  {
    hide Resolve, ResolveAll;
    SameMembers(a, b);
    ResolveAllSucceeds(text, a);
    ResolveAllSucceeds(text, b);
    if a == [] {
      assert |b| == |multiset(b)|;
    } else {
      var i := RemoveLast(a, b);
      var init, last, before, after := a[..|a| - 1], [b[i]], b[..i], b[i + 1..];
      assert b[i] in b;
      ResolveAllSucceeds(text, init);
      ResolveAllSucceeds(text, before);
      ResolveAllSucceeds(text, after);
      ResolveAllSucceeds(text, last);
      ResolvedBag(text, init, before + after);
      ResolveAllConcat(text, before, after);
      ResolveAllConcat(text, last, after);
      ResolveAllConcat(text, before, last + after);
      ResolveAllConcat(text, init, last);
    }
  }

  /** Permuting an accepted list keeps it accepted, and keeps the result exactly when
      it does not reorder different insertions at one offset. */
  lemma PermutationExactly(text: Text, a: seq<TextEdit>, b: seq<TextEdit>)
    requires multiset(a) == multiset(b) && PatchText(text, a).Success?
    ensures PatchText(text, b).Success? && ResolveAll(text, a).Success? && ResolveAll(text, b).Success?
    ensures PatchText(text, a) == PatchText(text, b)
       <==> InsertAlike(Reversed(ResolveAll(text, a).value), Reversed(ResolveAll(text, b).value))
  {
    hide PairwiseDisjoint, Substitute, Reversed, InsertAlike;
    ResolvedBag(text, a, b);
    ResolvedInText(text, a);
    var ss, tt := ResolveAll(text, a).value, ResolveAll(text, b).value;
    PermutationStaysDisjoint(ss, tt);
    ReversedBag(ss);
    ReversedBag(tt);
    PermutationStaysDisjoint(ss, Reversed(ss));
    PermutationStaysDisjoint(tt, Reversed(tt));
    SameMembers(ss, Reversed(ss));
    SubstitutionsAgreeExactly(text, Reversed(ss), Reversed(tt));
  }

  /** At most one insertion at each offset. */
  ghost predicate OneInsertionPerOffset(ss: seq<Splice>) {
    forall p: nat :: |Keyed(ss, p, p)| <= 1
  }

  /** With at most one insertion per offset the order of the list never shows. */
  lemma OrderNeverShows(text: Text, a: seq<TextEdit>, b: seq<TextEdit>)
    requires multiset(a) == multiset(b) && PatchText(text, a).Success?
    requires ResolveAll(text, a).Success? && OneInsertionPerOffset(ResolveAll(text, a).value)
    ensures PatchText(text, b) == PatchText(text, a)
  {
    hide PatchText, Reversed, Keyed;
    ResolvedBag(text, a, b);
    var ss, tt := ResolveAll(text, a).value, ResolveAll(text, b).value;
    forall p: nat ensures Insertions(Reversed(ss), p) == Insertions(Reversed(tt), p) {
      forall s ensures multiset(Keyed(ss, p, p))[s] == multiset(Keyed(tt, p, p))[s] {
        KeyedCount(ss, p, p, s);
        KeyedCount(tt, p, p, s);
      }
      OneElement(Keyed(ss, p, p), Keyed(tt, p, p));
      ReversedKeyed(ss, p, p);
      ReversedKeyed(tt, p, p);
    }
    PermutationExactly(text, a, b);
  }

  lemma OneElement(a: seq<Splice>, b: seq<Splice>)
    requires multiset(a) == multiset(b) && |a| <= 1
    ensures a == b
  {
    assert |multiset(a)| == |a| && |multiset(b)| == |b|;
    if a != [] { assert b[0] in multiset(b); }
  }
}
