/**
 * Aggregates over finite sets of integers, standing for the SQL aggregates the metrics store
 * uses: `MIN`, `MAX` and `COUNT(DISTINCT ...)` restricted to a range.
 */
module IntSets {

  /** The least element: SQL `MIN` over a non-empty column. */
  ghost function MinOf(s: set<int>): (m: int)
    requires exists y :: y in s
    ensures m in s && forall y :: y in s ==> m <= y
    decreases |s|
  {
    var x :| x in s;
    if forall y :: y in s ==> y == x then x
    else
      var z :| z in s && z != x;
      assert z in s - {x};
      var rest := MinOf(s - {x});
      assert forall y :: y in s ==> y == x || y in s - {x};
      if x < rest then x else rest
  }

  /** The greatest element: SQL `MAX` over a non-empty column. */
  ghost function MaxOf(s: set<int>): (m: int)
    requires exists y :: y in s
    ensures m in s && forall y :: y in s ==> y <= m
    decreases |s|
  {
    var x :| x in s;
    if forall y :: y in s ==> y == x then x
    else
      var z :| z in s && z != x;
      assert z in s - {x};
      var rest := MaxOf(s - {x});
      assert forall y :: y in s ==> y == x || y in s - {x};
      if x > rest then x else rest
  }

  /** The integers `lo <= x < hi`. */
  function Range(lo: int, hi: int): (r: set<int>)
    ensures forall x :: x in r <==> lo <= x < hi
    ensures |r| == if lo <= hi then hi - lo else 0
    decreases hi - lo
  {
    if lo >= hi then {} else Range(lo, hi - 1) + {hi - 1}
  }

  /** The members of `s` in `lo <= x < hi`: `COUNT(DISTINCT x) WHERE x >= lo AND x < hi` is its size. */
  function Within(s: set<int>, lo: int, hi: int): (r: set<int>)
    ensures forall x :: x in r <==> x in s && lo <= x < hi
  {
    set x | x in s && lo <= x < hi
  }

  /**
   * A range holds at most as many distinct members as it is wide, and exactly that many
   * if and only if every integer of the range is a member.
   */
  lemma CountWithin(s: set<int>, lo: int, hi: int)
    requires lo <= hi
    ensures |Within(s, lo, hi)| <= hi - lo
    ensures |Within(s, lo, hi)| == hi - lo <==> forall x :: lo <= x < hi ==> x in s
  {
    var w, r := Within(s, lo, hi), Range(lo, hi);
    assert w <= r;
    assert |r| == |w| + |r - w| by {
      assert r == w + (r - w);
      assert w !! (r - w);
    }
    if forall x :: lo <= x < hi ==> x in s {
      assert r - w == {};
    } else {
      var y :| lo <= y < hi && y !in s;
      assert y in r - w;
    }
  }
}
