/** Finite sets of integers: extremes, spans and cardinalities of id ranges. */
module IdSets {

  lemma Pick<T>(s: set<T>) returns (x: T)
    requires s != {}
    ensures x in s
  {
    x :| x in s;
  }

  lemma Subset(a: set<int>, b: set<int>)
    requires forall x | x in a :: x in b
    ensures a <= b
  {
    assert forall x | x in a :: x in b;
  }

  lemma {:induction false} MaxElement(s: set<int>) returns (top: int)
    requires s != {}
    ensures top in s && forall y :: y in s ==> y <= top
  {
    var x := Pick(s);
    var rest := s - {x};
    forall y ensures y in s <==> y in rest || y == x {
    }
    top := x;
    if rest != {} {
      var m := MaxElement(rest);
      top := if m < x then x else m;
    }
  }

  lemma MaxExists(s: set<int>)
    requires s != {}
    ensures exists x :: x in s && forall y :: y in s ==> y <= x
  {
    var top := MaxElement(s);
  }

  lemma MinExists(s: set<int>)
    requires s != {}
    ensures exists x :: x in s && forall y :: y in s ==> x <= y
  {
    var negated := set x | x in s :: -x;
    var x0 := Pick(s);
    assert -x0 in negated;
    MaxExists(negated);
    var m :| m in negated && forall y :: y in negated ==> y <= m;
    assert forall y :: y in s ==> -y in negated;
  }

  ghost function MaxOf(s: set<int>): (m: int)
    requires s != {}
    ensures m in s && forall y :: y in s ==> y <= m
  {
    MaxExists(s);
    var m :| m in s && forall y :: y in s ==> y <= m;
    m
  }

  ghost function MinOf(s: set<int>): (m: int)
    requires s != {}
    ensures m in s && forall y :: y in s ==> m <= y
  {
    MinExists(s);
    var m :| m in s && forall y :: y in s ==> m <= y;
    m
  }

  function Range(lo: int, hi: int): set<int>
    decreases hi - lo
  {
    if hi <= lo then {} else Range(lo, hi - 1) + {hi - 1}
  }

  lemma {:induction false} RangeHolds(lo: int, hi: int)
    ensures forall x :: x in Range(lo, hi) <==> lo <= x < hi
    ensures |Range(lo, hi)| == if lo <= hi then hi - lo else 0
    decreases hi - lo
  {
    if lo < hi {
      RangeHolds(lo, hi - 1);
    }
  }

  lemma {:induction false} SubsetSize<T>(a: set<T>, b: set<T>)
    requires a <= b
    ensures |a| <= |b|
    ensures |a| == |b| ==> a == b
  {
    if a != {} {
      var x := Pick(a);
      SubsetSize(a - {x}, b - {x});
    }
  }

  /** A set of ids inside a range is no larger than the range, and as large only when it fills it. */
  lemma SizeWithin(s: set<int>, lo: int, hi: int)
    requires lo <= hi && forall x :: x in s ==> lo <= x < hi
    ensures |s| <= hi - lo
    ensures |s| == hi - lo <==> s == Range(lo, hi)
  {
    RangeHolds(lo, hi);
    Subset(s, Range(lo, hi));
    SubsetSize(s, Range(lo, hi));
  }
}
