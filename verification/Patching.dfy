/** The splicing loop of the edit engine, proved against simultaneous substitution. */
module Patching {
  import opened Bags
  import opened Utf8
  import opened TextEdits

  /** Left-to-right rendering of a chained list: gap, replacement, gap, ... */
  function Render(text: Text, from: nat, ss: seq<Splice>): Text
    requires from <= |text| && RendersFrom(text, from, ss)
    decreases |ss|
  {
    if ss == [] then text[from..]
    else text[from..ss[0].start] + ss[0].replaceWith + Render(text, ss[0].end, ss[1..])
  }

  predicate RendersFrom(text: Text, from: nat, ss: seq<Splice>) {
    InText(text, ss) && Chained(ss) && (ss != [] ==> from <= ss[0].start)
  }

  // ----- rendering is simultaneous substitution

  /** Substitution depends only on what is emitted offset by offset. */
  lemma {:induction false} SubstituteCongruent(text: Text, a: seq<Splice>, b: seq<Splice>, p: nat)
    requires p <= |text|
    requires forall q :: p <= q <= |text| ==> Emitted(text, a, q) == Emitted(text, b, q)
    ensures Substitute(text, a, p) == Substitute(text, b, p)
    decreases |text| - p
  {
    hide Emitted;
    if p < |text| { SubstituteCongruent(text, a, b, p + 1); }
  }

  lemma {:induction false} EmptyFilters(ss: seq<Splice>, p: nat)
    requires forall s <- ss :: s.start != p
    ensures Keyed(ss, p, p) == [] && Starting(ss, p) == []
  {
    if ss != [] {
      assert ss[0] in ss;
      EmptyFilters(ss[1..], p);
    }
  }

  /** Between ranges the byte itself comes out, and nothing else. */
  lemma EmittedInGap(text: Text, ss: seq<Splice>, p: nat)
    requires p < |text| && forall s <- ss :: p < s.start
    ensures Emitted(text, ss, p) == [text[p]]
  {
    EmptyFilters(ss, p);
  }

  /** Strictly inside the first range nothing comes out. */
  lemma EmittedInFirst(text: Text, ss: seq<Splice>, p: nat)
    requires ss != [] && ss[0].start < p < ss[0].end && forall s <- ss[1..] :: ss[0].end <= s.start
    ensures Emitted(text, ss, p) == []
  {
    assert forall s <- ss :: s.start != p by { assert ss == [ss[0]] + ss[1..]; }
    EmptyFilters(ss, p);
    assert ss[0] in ss && Covered(ss, p);
  }

  /** Past its range, a list's first splice no longer matters. */
  lemma EmittedPastFirst(text: Text, ss: seq<Splice>, p: nat)
    requires ss != [] && ss[0].start < p && ss[0].end <= p
    ensures Emitted(text, ss, p) == Emitted(text, ss[1..], p)
  {
    assert ss == [ss[0]] + ss[1..];
    assert Keyed(ss, p, p) == Keyed(ss[1..], p, p);
    assert Starting(ss, p) == Starting(ss[1..], p);
    assert Covered(ss, p) <==> Covered(ss[1..], p);
  }

  /** Where an empty first splice stands, its text comes out first. */
  lemma EmittedAtEmptyFirst(text: Text, ss: seq<Splice>)
    requires ss != [] && ss[0].start == ss[0].end
    ensures Emitted(text, ss, ss[0].start) == ss[0].replaceWith + Emitted(text, ss[1..], ss[0].start)
  {
    hide Insertions, Starting, Covered, Texts;
    InsertionsAtFirst(ss);
    EmptyRangeCoversNothing(ss);
  }

  lemma EmptyRangeCoversNothing(ss: seq<Splice>)
    requires ss != [] && ss[0].start == ss[0].end
    ensures forall p: nat :: Starting(ss, p) == Starting(ss[1..], p) && Covered(ss, p) == Covered(ss[1..], p)
  {
    assert ss == [ss[0]] + ss[1..];
  }

  lemma InsertionsAtFirst(ss: seq<Splice>)
    requires ss != [] && ss[0].start == ss[0].end
    ensures Insertions(ss, ss[0].start) == ss[0].replaceWith + Insertions(ss[1..], ss[0].start)
  {
    var k := Keyed(ss[1..], ss[0].start, ss[0].start);
    assert Keyed(ss, ss[0].start, ss[0].start) == [ss[0]] + k;
    assert ([ss[0]] + k)[1..] == k;
  }

  lemma EmittedAtFirstRange(text: Text, ss: seq<Splice>)
    requires ss != [] && ss[0].start < ss[0].end && forall s <- ss[1..] :: ss[0].end <= s.start
    ensures Emitted(text, ss, ss[0].start) == ss[0].replaceWith
  {
    var p := ss[0].start;
    EmptyFilters(ss[1..], p);
    assert Keyed(ss, p, p) == [];
    assert Starting(ss, p) == [ss[0]];
    assert Texts([ss[0]]) == ss[0].replaceWith;
    assert ss[0] in ss && Covered(ss, p);
  }

  lemma {:induction false} LaterStarts(ss: seq<Splice>)
    requires Chained(ss) && ss != [] && forall s <- ss :: s.start <= s.end
    ensures forall s <- ss[1..] :: ss[0].end <= s.start
    ensures forall s <- ss :: ss[0].start <= s.start
  {
    assert ss[0] in ss && ss == [ss[0]] + ss[1..];
    forall s | s in ss[1..] ensures ss[0].end <= s.start {
      var i :| 1 <= i < |ss| && ss[i] == s;
      ChainedFrom(ss, 0, i);
    }
  }

  lemma {:induction false} SubstituteNothing(text: Text, p: nat)
    requires p <= |text|
    ensures Substitute(text, [], p) == text[p..]
    decreases |text| - p
  {
    if p < |text| {
      EmittedInGap(text, [], p);
      SubstituteNothing(text, p + 1);
      assert text[p..] == [text[p]] + text[p + 1..];
    } else {
      EmptyFilters([], p);
    }
  }

  lemma SkipFirst(text: Text, ss: seq<Splice>, p: nat)
    requires ss != [] && p <= |text| && ss[0].start < p && ss[0].end <= p
    ensures Substitute(text, ss, p) == Substitute(text, ss[1..], p)
  {
    forall q | p <= q <= |text| ensures Emitted(text, ss, q) == Emitted(text, ss[1..], q) {
      EmittedPastFirst(text, ss, q);
    }
    SubstituteCongruent(text, ss, ss[1..], p);
  }

  lemma {:induction false} CrossFirst(text: Text, ss: seq<Splice>, p: nat)
    requires ss != [] && ss[0].start < p <= ss[0].end <= |text|
    requires forall s <- ss[1..] :: ss[0].end <= s.start
    ensures Substitute(text, ss, p) == Substitute(text, ss[1..], ss[0].end)
    decreases |text| - p
  {
    hide Emitted;
    if p == ss[0].end {
      SkipFirst(text, ss, p);
    } else {
      CrossFirst(text, ss, p + 1);
      EmittedInFirst(text, ss, p);
    }
  }

  /** One step of substitution. */
  lemma SubstituteStep(text: Text, ss: seq<Splice>, p: nat)
    requires p < |text|
    ensures Substitute(text, ss, p) == Emitted(text, ss, p) + Substitute(text, ss, p + 1)
  {
  }

  lemma SubstituteLast(text: Text, ss: seq<Splice>)
    ensures Substitute(text, ss, |text|) == Emitted(text, ss, |text|)
  {
    hide Emitted;
    assert Emitted(text, ss, |text|) + [] == Emitted(text, ss, |text|);
  }

  lemma {:induction false} PlaceFirst(text: Text, ss: seq<Splice>)
    requires RendersFrom(text, 0, ss) && ss != []
    ensures Substitute(text, ss, ss[0].start)
         == ss[0].replaceWith + Substitute(text, ss[1..], ss[0].end)
  {
    hide Substitute, Chained;
    assert ss[0] in ss;
    LaterStarts(ss);
    if ss[0].end == ss[0].start {
      PlaceEmptyFirst(text, ss);
    } else {
      PlaceRangeFirst(text, ss);
    }
  }

  lemma {:induction false} PlaceRangeFirst(text: Text, ss: seq<Splice>)
    requires ss != [] && ss[0].start < ss[0].end <= |text| && forall s <- ss[1..] :: ss[0].end <= s.start
    ensures Substitute(text, ss, ss[0].start)
         == ss[0].replaceWith + Substitute(text, ss[1..], ss[0].end)
  {
    hide Emitted, Substitute;
    EmittedAtFirstRange(text, ss);
    CrossFirst(text, ss, ss[0].start + 1);
    SubstituteStep(text, ss, ss[0].start);
  }

  lemma Regroup(a: Text, b: Text, c: Text)
    ensures a + b + c == a + (b + c)
  {
  }

  lemma {:induction false} PlaceEmptyFirst(text: Text, ss: seq<Splice>)
    requires ss != [] && ss[0].start == ss[0].end <= |text|
    ensures Substitute(text, ss, ss[0].start) == ss[0].replaceWith + Substitute(text, ss[1..], ss[0].start)
  {
    hide Emitted, Substitute;
    EmittedAtEmptyFirst(text, ss);
    if ss[0].start < |text| {
      SkipFirst(text, ss, ss[0].start + 1);
    }
    SamePlace(text, ss, ss[1..], ss[0].start, ss[0].replaceWith);
  }

  /** Lists that differ at `p` by a leading text and agree after it. */
  lemma SamePlace(text: Text, a: seq<Splice>, b: seq<Splice>, p: nat, put: Text)
    requires p <= |text| && Emitted(text, a, p) == put + Emitted(text, b, p)
    requires p < |text| ==> Substitute(text, a, p + 1) == Substitute(text, b, p + 1)
    ensures Substitute(text, a, p) == put + Substitute(text, b, p)
  {
    hide Emitted, Substitute;
    if p < |text| {
      SubstituteStep(text, a, p);
      SubstituteStep(text, b, p);
      Regroup(put, Emitted(text, b, p), Substitute(text, b, p + 1));
    } else {
      SubstituteLast(text, a);
      SubstituteLast(text, b);
    }
  }

  lemma {:induction false} CrossGap(text: Text, ss: seq<Splice>, from: nat, stop: nat)
    requires from <= stop <= |text| && forall s <- ss :: stop <= s.start
    ensures Substitute(text, ss, from) == text[from..stop] + Substitute(text, ss, stop)
    decreases stop - from
  {
    hide Emitted, Substitute;
    if from < stop {
      CrossGap(text, ss, from + 1, stop);
      EmittedInGap(text, ss, from);
      SubstituteStep(text, ss, from);
      assert text[from..stop] == [text[from]] + text[from + 1..stop];
    }
  }

  lemma {:induction false} RenderSubstitutes(text: Text, from: nat, ss: seq<Splice>)
    requires from <= |text| && RendersFrom(text, from, ss)
    ensures Render(text, from, ss) == Substitute(text, ss, from)
    decreases |ss|
  {
    hide Substitute;
    if ss == [] {
      SubstituteNothing(text, from);
    } else {
      assert ss[0] in ss;
      LaterStarts(ss);
      CrossGap(text, ss, from, ss[0].start);
      PlaceFirst(text, ss);
      RenderSubstitutes(text, ss[0].end, ss[1..]);
    }
  }

  // ----- the order of application does not show, except among insertions

  lemma {:induction false} KeyedConcat(x: seq<Splice>, y: seq<Splice>, a: nat, b: nat)
    ensures Keyed(x + y, a, b) == Keyed(x, a, b) + Keyed(y, a, b)
  {
    hide Keyed;
    if x == [] {
      KeyedNone(a, b);
      assert x + y == y;
    } else {
      KeyedConcat(x[1..], y, a, b);
      KeyedFirst(x[0], x[1..] + y, a, b);
      KeyedFirst(x[0], x[1..], a, b);
      assert x + y == [x[0]] + (x[1..] + y) && x == [x[0]] + x[1..];
    }
  }

  lemma ReversedFirst<T>(x: T, s: seq<T>)
    ensures Reversed([x] + s) == Reversed(s) + [x]
  {
    assert ([x] + s)[1..] == s;
  }

  lemma {:induction false} ReversedKeyed(ss: seq<Splice>, a: nat, b: nat)
    ensures Keyed(Reversed(ss), a, b) == Reversed(Keyed(ss, a, b))
  {
    hide Keyed, Reversed;
    if ss == [] {
      KeyedNone(a, b);
      assert Reversed<Splice>([]) == [];
    } else {
      var first, rest := ss[0], ss[1..];
      assert ss == [first] + rest;
      ReversedFirst(first, rest);
      ReversedKeyed(rest, a, b);
      KeyedConcat(Reversed(rest), [first], a, b);
      KeyedFirst(first, rest, a, b);
      KeyedFirst(first, [], a, b);
      KeyedNone(a, b);
      assert [first] + [] == [first];
      ReversedFirst(first, Keyed(rest, a, b));
    }
  }

  lemma {:induction false} ReversedBag<T>(s: seq<T>)
    ensures multiset(Reversed(s)) == multiset(s)
  {
    if s != [] {
      ReversedBag(s[1..]);
      assert s == [s[0]] + s[1..];
    }
  }

  /** Among disjoint splices at most one replaces text from a given offset on. */
  lemma {:induction false} AtMostOneStarts(ss: seq<Splice>, p: nat)
    requires PairwiseDisjoint(ss)
    ensures |Starting(ss, p)| <= 1
  {
    if ss != [] {
      AtMostOneStarts(ss[1..], p);
      if ss[0].start == p < ss[0].end {
        forall k | 0 < k < |ss| ensures !(ss[k].start == p < ss[k].end) {
          assert Disjoint(ss[0], ss[k]);
        }
        NoneStarts(ss[1..], p);
      }
    }
  }

  lemma {:induction false} NoneStarts(ss: seq<Splice>, p: nat)
    requires forall k :: 0 <= k < |ss| ==> !(ss[k].start == p < ss[k].end)
    ensures Starting(ss, p) == []
  {
    if ss != [] { NoneStarts(ss[1..], p); }
  }

  lemma {:induction false} StartingMembers(ss: seq<Splice>, p: nat)
    ensures forall s :: s in Starting(ss, p) <==> s in ss && s.start == p < s.end
  {
    if ss != [] {
      StartingMembers(ss[1..], p);
      assert ss == [ss[0]] + ss[1..];
    }
  }

  lemma SameStarting(a: seq<Splice>, b: seq<Splice>, p: nat)
    requires multiset(a) == multiset(b) && PairwiseDisjoint(a) && PairwiseDisjoint(b)
    ensures Starting(a, p) == Starting(b, p)
  {
    hide Starting, PairwiseDisjoint;
    AtMostOneStarts(a, p);
    AtMostOneStarts(b, p);
    SameMembers(a, b);
    StartingMembers(a, p);
    StartingMembers(b, p);
    var x, y := Starting(a, p), Starting(b, p);
    if x != [] { assert x[0] in x && x[0] in y; }
    if y != [] { assert y[0] in y && y[0] in x; }
  }

  /** Two disjoint lists of the same splices that agree on the order of insertions
      substitute alike. */
  lemma SameSubstitution(text: Text, a: seq<Splice>, b: seq<Splice>)
    requires multiset(a) == multiset(b) && PairwiseDisjoint(a) && PairwiseDisjoint(b)
    requires forall p: nat :: Insertions(a, p) == Insertions(b, p)
    ensures Substitute(text, a, 0) == Substitute(text, b, 0)
  {
    hide Substitute, Insertions, Starting, Texts, PairwiseDisjoint;
    SameMembers(a, b);
    forall p: nat | p <= |text| ensures Emitted(text, a, p) == Emitted(text, b, p) {
      SameStarting(a, b, p);
      assert Covered(a, p) <==> Covered(b, p);
    }
    SubstituteCongruent(text, a, b, 0);
  }

  lemma PermutationStaysDisjoint(a: seq<Splice>, b: seq<Splice>)
    requires multiset(a) == multiset(b) && PairwiseDisjoint(a)
    ensures PairwiseDisjoint(b)
  {
    DisjointIsOrderFree(a);
    DisjointIsOrderFree(b);
  }

  /** The list the splicing loop works through, read backwards. */
  function EngineOrder(ss: seq<Splice>): seq<Splice> { Reversed(StableDescending(ss)) }

  /** Sorting descending and splicing back to front comes to the same as substituting
      in reverse list order. */
  lemma {:induction false} EngineOrderSubstitutes(text: Text, ss: seq<Splice>)
    requires PairwiseDisjoint(ss)
    ensures Substitute(text, EngineOrder(ss), 0) == Substitute(text, Reversed(ss), 0)
  {
    hide Substitute, PairwiseDisjoint, StableDescending, Reversed;
    ReversedBag(ss);
    ReversedBag(StableDescending(ss));
    PermutationStaysDisjoint(ss, EngineOrder(ss));
    PermutationStaysDisjoint(ss, Reversed(ss));
    forall p: nat ensures Insertions(EngineOrder(ss), p) == Insertions(Reversed(ss), p) {
      StableDescendingKeeps(ss, p, p);
      ReversedKeyed(StableDescending(ss), p, p);
      ReversedKeyed(ss, p, p);
    }
    SameSubstitution(text, EngineOrder(ss), Reversed(ss));
  }

  lemma ReversedAscends(down: seq<Splice>)
    requires Descending(down)
    ensures Ascending(Reversed(down))
  {
    var up := Reversed(down);
    forall i, j | 0 <= i < j < |up| ensures !AppliesBefore(up[i], up[j]) {
      assert up[i] == down[|down| - 1 - i] && up[j] == down[|down| - 1 - j];
    }
  }

  lemma EngineOrderRenders(text: Text, ss: seq<Splice>)
    requires PairwiseDisjoint(ss) && InText(text, ss)
    ensures RendersFrom(text, 0, EngineOrder(ss))
  {
    hide StableDescending, PairwiseDisjoint, Reversed, AppliesBefore;
    var up := EngineOrder(ss);
    StableDescendingSorts(ss);
    ReversedBag(StableDescending(ss));
    SameMembers(ss, up);
    ReversedAscends(StableDescending(ss));
    PermutationStaysDisjoint(ss, up);
    NeighboursDecide(up);
  }
}
