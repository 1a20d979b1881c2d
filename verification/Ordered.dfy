/** Iteration over ordered containers: std::map and flat_set hand out their keys in ascending order. */
module Ordered {

  predicate Ascends(xs: seq<int>) {
    forall i, j :: 0 <= i < j < |xs| ==> xs[i] < xs[j]
  }

  lemma SomeElement(s: set<int>)
    requires s != {}
    ensures exists x :: x in s
  {
    assert (forall x :: x !in s) ==> s == {};
  }

  method Least(s: set<int>) returns (least: int)
    requires s != {}
    ensures least in s && forall x :: x in s ==> least <= x
  {
    SomeElement(s);
    var first: int :| first in s;
    least := first;
    var left := s - {first};
    while left != {}
      invariant least in s && left <= s
      invariant forall x :: x in s && x !in left ==> least <= x
      decreases |left|
    {
      SomeElement(left);
      var x: int :| x in left;
      if x < least {
        least := x;
      }
      left := left - {x};
    }
  }

  method Ascending(s: set<int>) returns (xs: seq<int>)
    ensures Ascends(xs)
    ensures forall x :: x in xs <==> x in s
  {
    xs := [];
    var left := s;
    while left != {}
      invariant Ascends(xs)
      invariant forall i, x :: 0 <= i < |xs| && x in left ==> xs[i] < x
      invariant forall x :: x in xs || x in left <==> x in s
      decreases |left|
    {
      var least := Least(left);
      left := left - {least};
      xs := xs + [least];
    }
  }
}
