/** Sequences as bags. */
module Bags {
  lemma SameMembers<T>(a: seq<T>, b: seq<T>)
    requires multiset(a) == multiset(b)
    ensures forall s :: s in a <==> s in b
  {
    assert forall s :: s in a <==> s in multiset(a);
    assert forall s :: s in b <==> s in multiset(b);
  }

  /** Where the last element of `a` sits in a permutation `b` of it, and what is left
      of both without it. */
  lemma RemoveLast<T>(a: seq<T>, b: seq<T>) returns (i: nat)
    requires multiset(a) == multiset(b) && a != []
    ensures i < |b| && b[i] == a[|a| - 1] && b == b[..i] + ([b[i]] + b[i + 1..])
    ensures a == a[..|a| - 1] + [a[|a| - 1]]
    ensures multiset(b[..i] + b[i + 1..]) == multiset(a[..|a| - 1])
  {
    var e := a[|a| - 1];
    assert a == a[..|a| - 1] + [e];
    assert e in multiset(b);
    i :| 0 <= i < |b| && b[i] == e;
    assert b == b[..i] + ([e] + b[i + 1..]);
    assert multiset(b) == multiset(b[..i]) + (multiset{e} + multiset(b[i + 1..]));
    assert multiset(b[..i] + b[i + 1..]) == multiset(b) - multiset{e};
  }
}
