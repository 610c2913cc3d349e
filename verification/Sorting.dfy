/** What std::sort makes of a vector whose order leaves it no choice. */
module Sorting {
  ghost predicate Ascending<T(!new)>(s: seq<T>, before: (T, T) -> bool) {
    forall i, j | 0 <= i < j < |s| :: before(s[i], s[j])
  }

  function Place<T>(x: T, s: seq<T>, before: (T, T) -> bool): seq<T> {
    if s == [] || before(x, s[0]) then [x] + s else [s[0]] + Place(x, s[1..], before)
  }

  function Arranged<T>(s: seq<T>, before: (T, T) -> bool): seq<T> {
    if s == [] then [] else Place(s[0], Arranged(s[1..], before), before)
  }

  lemma {:induction false} PlaceMembers<T(!new)>(x: T, s: seq<T>, before: (T, T) -> bool)
    ensures multiset(Place(x, s, before)) == multiset(s) + multiset{x} && |Place(x, s, before)| == |s| + 1
    ensures forall y :: y in Place(x, s, before) <==> y == x || y in s
  {
    if s != [] && !before(x, s[0]) {
      PlaceMembers(x, s[1..], before);
      assert s == [s[0]] + s[1..];
    }
  }

  lemma {:induction false} ArrangedMembers<T(!new)>(s: seq<T>, before: (T, T) -> bool)
    ensures multiset(Arranged(s, before)) == multiset(s) && |Arranged(s, before)| == |s|
    ensures forall y :: y in Arranged(s, before) <==> y in s
  {
    if s != [] {
      ArrangedMembers(s[1..], before);
      PlaceMembers(s[0], Arranged(s[1..], before), before);
      assert s == [s[0]] + s[1..];
    }
  }

  lemma AscendingCons<T(!new)>(x: T, s: seq<T>, before: (T, T) -> bool)
    requires Ascending(s, before) && forall y | y in s :: before(x, y)
    ensures Ascending([x] + s, before)
  {
    forall i, j | 0 <= i < j < |s| + 1 ensures before(([x] + s)[i], ([x] + s)[j]) {
      assert ([x] + s)[j] == s[j - 1] && s[j - 1] in s;
      assert i > 0 ==> ([x] + s)[i] == s[i - 1];
    }
  }

  lemma FirstLeast<T(!new)>(s: seq<T>, before: (T, T) -> bool)
    requires Ascending(s, before) && s != []
    ensures Ascending(s[1..], before) && forall y | y in s[1..] :: before(s[0], y)
  {
  }

  // x is comparable with all of s, and what is behind a member of s that it is before.
  ghost predicate Comparable<T(!new)>(x: T, s: seq<T>, before: (T, T) -> bool) {
    (forall y | y in s :: before(x, y) || before(y, x)) &&
    forall y, z | y in s && z in s && before(x, y) && before(y, z) :: before(x, z)
  }

  lemma {:induction false} PlaceAscending<T(!new)>(x: T, s: seq<T>, before: (T, T) -> bool)
    requires Ascending(s, before) && Comparable(x, s, before)
    ensures Ascending(Place(x, s, before), before)
    decreases |s|
  {
    if s == [] {
    } else {
      FirstLeast(s, before);
      assert s == [s[0]] + s[1..] && s[0] in s;
      if before(x, s[0]) {
        hide Ascending;
        AscendingCons(x, s, before);
      } else {
        hide Ascending;
        assert Comparable(x, s[1..], before) && before(s[0], x);
        PlaceAscending(x, s[1..], before);
        PlaceMembers(x, s[1..], before);
        forall y | y in Place(x, s[1..], before) ensures before(s[0], y) {
          if y != x { assert y in s[1..]; }
        }
        AscendingCons(s[0], Place(x, s[1..], before), before);
      }
    }
  }
}
