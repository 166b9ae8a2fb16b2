/** Finite sets. */
module Sets {

  lemma {:induction false} SubsetSize<T>(s: set<T>, s': set<T>)
    requires s <= s'
    ensures |s| <= |s'|
  {
    if s != {} {
      var x :| x in s;
      SubsetSize(s - {x}, s' - {x});
    }
  }

  lemma HasLeast(s: set<nat>)
    requires s != {}
    ensures exists x :: x in s && forall y :: y in s ==> x <= y
  {
    var x :| x in s;
    if y :| y in s && y < x {
      var t := set z | z in s && z < x;
      assert y in t && x !in t && t < s;
      HasLeast(t);
      var w :| w in t && forall z :: z in t ==> w <= z;
      assert forall z :: z in s ==> z in t || z >= x;
    }
  }

  lemma LeastIs(s: set<nat>, x: nat)
    requires x in s && forall y :: y in s ==> x <= y
    ensures Least(s) == x
  {
    assert x <= Least(s) <= x;
  }

  function Least(s: set<nat>): (x: nat)
    requires s != {}
    ensures x in s && forall y :: y in s ==> x <= y
  {
    HasLeast(s);
    var x :| x in s && forall y :: y in s ==> x <= y;
    x
  }
}
