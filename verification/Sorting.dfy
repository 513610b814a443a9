/** Sorting by a total order, and why the order of the input cannot show. */
module Sorting {
  ghost predicate TotalOrder<T(!new)>(leq: (T, T) -> bool) {
    (forall a, b :: leq(a, b) || leq(b, a))
    && (forall a, b :: leq(a, b) && leq(b, a) ==> a == b)
    && (forall a, b, c :: leq(a, b) && leq(b, c) ==> leq(a, c))
  }

  ghost predicate SortedBy<T>(leq: (T, T) -> bool, s: seq<T>) {
    forall i, j :: 0 <= i < j < |s| ==> leq(s[i], s[j]) && s[i] != s[j]
  }

  ghost predicate Lists<T(!new)>(s: seq<T>, members: set<T>) {
    forall x :: x in s <==> x in members
  }

  function InsertBy<T(==)>(leq: (T, T) -> bool, x: T, s: seq<T>): seq<T> {
    if s == [] || leq(x, s[0]) then [x] + s else [s[0]] + InsertBy(leq, x, s[1..])
  }

  lemma {:induction false} InsertByMembers<T>(leq: (T, T) -> bool, x: T, s: seq<T>)
    ensures forall y :: y in InsertBy(leq, x, s) <==> y == x || y in s
  {
    if s != [] && !leq(x, s[0]) {
      InsertByMembers(leq, x, s[1..]);
      assert s == [s[0]] + s[1..];
    }
  }

  lemma {:induction false} InsertBySorts<T(!new)>(leq: (T, T) -> bool, x: T, s: seq<T>)
    requires TotalOrder(leq) && SortedBy(leq, s) && x !in s
    ensures SortedBy(leq, InsertBy(leq, x, s))
  {
    if s == [] {
    } else if leq(x, s[0]) {
      var r := [x] + s;
      forall j | 1 <= j < |r| ensures leq(x, r[j]) && x != r[j] { assert r[j] == s[j - 1]; }
    } else {
      InsertBySorts(leq, x, s[1..]);
      InsertByMembers(leq, x, s[1..]);
      var rest := InsertBy(leq, x, s[1..]);
      forall j | 0 <= j < |rest| ensures leq(s[0], rest[j]) && s[0] != rest[j] {
        assert rest[j] in rest;
        if rest[j] != x {
          var k :| 0 <= k < |s[1..]| && s[1..][k] == rest[j];
          assert s[k + 1] == rest[j];
        }
      }
    }
  }

  /** One sorted listing per set: what the input order was cannot show. */
  lemma {:induction false} SortedListingUnique<T(!new)>(leq: (T, T) -> bool, a: seq<T>, b: seq<T>)
    requires TotalOrder(leq) && SortedBy(leq, a) && SortedBy(leq, b)
    requires forall x :: x in a <==> x in b
    ensures a == b
    decreases |a|
  {
    assert a != [] ==> a[0] in b;
    assert b != [] ==> b[0] in a;
    if a != [] {
      var i :| 0 <= i < |b| && b[i] == a[0];
      var j :| 0 <= j < |a| && a[j] == b[0];
      assert leq(a[0], b[0]) && leq(b[0], a[0]);
      forall x ensures x in a[1..] <==> x in b[1..] { TailMembers(leq, a, x); TailMembers(leq, b, x); }
      SortedListingUnique(leq, a[1..], b[1..]);
      assert a == [a[0]] + a[1..] && b == [b[0]] + b[1..];
    }
  }

  lemma TailMembers<T>(leq: (T, T) -> bool, s: seq<T>, x: T)
    requires s != [] && SortedBy(leq, s)
    ensures x in s[1..] <==> x in s && x != s[0]
  {
    assert s == [s[0]] + s[1..];
  }

  /** The sorted listing of a set. */
  ghost function ListingOf<T(!new)>(leq: (T, T) -> bool, members: set<T>): (s: seq<T>)
    requires TotalOrder(leq)
    ensures SortedBy(leq, s) && Lists(s, members)
  {
    if members == {} then [] else
      var x :| x in members;
      var rest := ListingOf(leq, members - {x});
      InsertBySorts(leq, x, rest);
      InsertByMembers(leq, x, rest);
      InsertBy(leq, x, rest)
  }

  /** Collects a set in whatever order and sorts it. */
  method SortSet<T(!new, ==)>(leq: (T, T) -> bool, members: set<T>) returns (s: seq<T>)
    requires TotalOrder(leq)
    ensures s == ListingOf(leq, members)
  {
    var todo, collected: seq<T> := members, [];
    while todo != {}
      invariant todo <= members
      invariant forall x :: x in collected <==> x in members && x !in todo
      invariant forall i, j :: 0 <= i < j < |collected| ==> collected[i] != collected[j]
      decreases todo
    {
      var x :| x in todo;
      todo := todo - {x};
      collected := collected + [x];
    }
    s := [];
    for i := 0 to |collected|
      invariant SortedBy(leq, s) && forall x :: x in s <==> x in collected[..i]
    {
      assert collected[i] !in collected[..i];
      InsertBySorts(leq, collected[i], s);
      InsertByMembers(leq, collected[i], s);
      assert collected[..i + 1] == collected[..i] + [collected[i]];
      s := InsertBy(leq, collected[i], s);
    }
    assert collected[..|collected|] == collected;
    SortedListingUnique(leq, s, ListingOf(leq, members));
  }
}
