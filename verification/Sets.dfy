/** Facts about finite sets of integers that several components need. */
module Sets {

  lemma CardinalityLess(a: set<int>, b: set<int>)
    requires b <= a
    ensures |a - b| == |a| - |b|
  {
    assert a == (a - b) + b;
  }

  lemma {:induction false} Greatest(ids: set<int>) returns (top: int)
    requires exists id :: id in ids
    ensures top in ids && forall id :: id in ids ==> id <= top
  {
    top :| top in ids;
    var others := ids - {top};
    assert forall id :: id in ids <==> id == top || id in others;
    if id :| id in others {
      var rest := Greatest(others);
      if rest > top { top := rest; }
    }
  }

  lemma {:induction false} Least(ids: set<int>) returns (bottom: int)
    requires exists id :: id in ids
    ensures bottom in ids && forall id :: id in ids ==> id >= bottom
  {
    bottom :| bottom in ids;
    var others := ids - {bottom};
    assert forall id :: id in ids <==> id == bottom || id in others;
    if id :| id in others {
      var rest := Least(others);
      if rest < bottom { bottom := rest; }
    }
  }

  function UpTo(n: nat): (ids: set<int>)
    ensures forall id :: id in ids <==> 1 <= id <= n
    ensures |ids| == n
  {
    if n == 0 then {} else UpTo(n - 1) + {n}
  }
}
