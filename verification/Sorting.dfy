/** `sorted(...)` for a total order. */
module Sorting {
  ghost predicate TotalOrder<T(!new)>(le: (T, T) -> bool) {
    && (forall a, b :: le(a, b) || le(b, a))
    && (forall a, b, c :: le(a, b) && le(b, c) ==> le(a, c))
  }

  ghost predicate Ordered<T>(s: seq<T>, le: (T, T) -> bool) {
    forall i, j :: 0 <= i < j < |s| ==> le(s[i], s[j])
  }

  function Insert<T>(x: T, s: seq<T>, le: (T, T) -> bool): (r: seq<T>) {
    if s == [] || le(x, s[0]) then [x] + s else [s[0]] + Insert(x, s[1..], le)
  }

  function Sorted<T>(s: seq<T>, le: (T, T) -> bool): (r: seq<T>) {
    if s == [] then [] else Insert(s[0], Sorted(s[1..], le), le)
  }

  lemma {:induction false} InsertFacts<T(!new)>(x: T, s: seq<T>, le: (T, T) -> bool)
    requires TotalOrder(le) && Ordered(s, le)
    ensures Ordered(Insert(x, s, le), le)
    ensures multiset(Insert(x, s, le)) == multiset(s) + multiset{x}
    ensures forall y :: y in Insert(x, s, le) <==> y == x || y in s
  {
    if s == [] {
    } else if le(x, s[0]) {
      assert forall i :: 0 <= i < |s| ==> le(x, s[i]);
    } else {
      assert s == [s[0]] + s[1..];
      var r := Insert(x, s[1..], le);
      InsertFacts(x, s[1..], le);
      assert forall y :: y in r ==> le(s[0], y);
    }
  }

  /** The result is in order and a permutation of the input. */
  lemma {:induction false} SortedFacts<T(!new)>(s: seq<T>, le: (T, T) -> bool)
    requires TotalOrder(le)
    ensures Ordered(Sorted(s, le), le) && multiset(Sorted(s, le)) == multiset(s)
    ensures forall y :: y in Sorted(s, le) <==> y in s
  {
    if s != [] {
      assert s == [s[0]] + s[1..];
      SortedFacts(s[1..], le);
      InsertFacts(s[0], Sorted(s[1..], le), le);
    }
  }
}
