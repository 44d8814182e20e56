/** Finite sets: their size, and the element of the least rank. */
module Sets {
  lemma {:induction false} SubsetSize<T>(a: set<T>, b: set<T>)
    requires a <= b
    ensures |a| <= |b|
    decreases |a|
  {
    if a != {} {
      var x :| x in a;
      SubsetSize(a - {x}, b - {x});
    }
  }

  ghost predicate IsLeast<T(!new)>(s: set<T>, rank: T -> nat, x: T)
  {
    x in s && forall y :: y in s ==> rank(x) <= rank(y)
  }

  lemma {:induction false} LeastExists<T(!new)>(s: set<T>, rank: T -> nat)
    requires s != {}
    ensures exists x :: IsLeast(s, rank, x)
    decreases |s|
  {
    var x :| x in s;
    var rest := s - {x};
    if rest == {} {
      assert s == {x} && IsLeast(s, rank, x);
    } else {
      LeastExists(rest, rank);
      var m :| IsLeast(rest, rank, m);
      var least := if rank(x) < rank(m) then x else m;
      forall y | y in s ensures rank(least) <= rank(y) {
        assert y == x || y in rest;
      }
      assert IsLeast(s, rank, least);
    }
  }
}
