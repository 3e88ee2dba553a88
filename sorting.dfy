/** `sorted(set(xs))`: the distinct values of a sequence in ascending order,
    for any strict total order (used for the date and neighbourhood facets). */
module Sorting {

  ghost predicate StrictTotalOrder<T(!new)>(less: (T, T) -> bool) {
    && (forall x :: !less(x, x))
    && (forall x, y, z :: less(x, y) && less(y, z) ==> less(x, z))
    && (forall x, y :: x == y || less(x, y) || less(y, x))
  }

  predicate StrictlySorted<T>(xs: seq<T>, less: (T, T) -> bool) {
    forall i, j :: 0 <= i < j < |xs| ==> less(xs[i], xs[j])
  }

  /** Inserts `x` at its place in a sorted sequence, unless it is there. */
  function InsertSorted<T(==)>(xs: seq<T>, x: T, less: (T, T) -> bool): seq<T>
  {
    if xs == [] then [x]
    else if xs[0] == x then xs
    else if less(x, xs[0]) then [x] + xs
    else [xs[0]] + InsertSorted(xs[1..], x, less)
  }

  function SortedDistinct<T(==)>(xs: seq<T>, less: (T, T) -> bool): seq<T>
  {
    if xs == [] then [] else InsertSorted(SortedDistinct(xs[..|xs| - 1], less), xs[|xs| - 1], less)
  }

  lemma {:induction false} InsertSortedCorrect<T(!new)>(xs: seq<T>, x: T, less: (T, T) -> bool)
    requires StrictTotalOrder(less) && StrictlySorted(xs, less)
    ensures StrictlySorted(InsertSorted(xs, x, less), less)
    ensures forall y :: y in InsertSorted(xs, x, less) <==> y in xs || y == x
  {
    if xs != [] && xs[0] != x && !less(x, xs[0]) {
      var tail := xs[1..];
      assert StrictlySorted(tail, less);
      InsertSortedCorrect(tail, x, less);
      var r := InsertSorted(xs, x, less);
      var rt := InsertSorted(tail, x, less);
      assert r == [xs[0]] + rt;
      assert less(xs[0], x);
      forall y | y in rt ensures less(xs[0], y) {
        if y != x {
          assert y in tail;
        }
      }
      forall i, j | 0 <= i < j < |r| ensures less(r[i], r[j]) {
        if i > 0 {
          assert r[i] == rt[i - 1] && r[j] == rt[j - 1];
        } else {
          assert r[j] in rt;
        }
      }
      assert xs == [xs[0]] + tail;
    }
  }

  /** The result is strictly ascending and holds exactly the values of `xs`. */
  lemma {:induction false} SortedDistinctCorrect<T(!new)>(xs: seq<T>, less: (T, T) -> bool)
    requires StrictTotalOrder(less)
    ensures StrictlySorted(SortedDistinct(xs, less), less)
    ensures forall y :: y in SortedDistinct(xs, less) <==> y in xs
  {
    if xs != [] {
      var init := xs[..|xs| - 1];
      SortedDistinctCorrect(init, less);
      InsertSortedCorrect(SortedDistinct(init, less), xs[|xs| - 1], less);
      assert xs == init + [xs[|xs| - 1]];
    }
  }

  /** The first element of a strictly ascending sequence is its least. */
  lemma HeadIsLeast<T>(xs: seq<T>, less: (T, T) -> bool)
    requires xs != [] && StrictlySorted(xs, less)
    ensures forall y :: y in xs ==> y == xs[0] || less(xs[0], y)
  {
    forall y | y in xs ensures y == xs[0] || less(xs[0], y) {
      var i :| 0 <= i < |xs| && xs[i] == y;
      if i > 0 {
        assert less(xs[0], xs[i]);
      }
    }
  }

  /** A strictly ascending sequence is determined by its set of values, so
      any way of computing `sorted(set(xs))` gives the same list. */
  lemma {:induction false} StrictlySortedUnique<T(!new)>(xs: seq<T>, ys: seq<T>, less: (T, T) -> bool)
    requires StrictTotalOrder(less)
    requires StrictlySorted(xs, less) && StrictlySorted(ys, less)
    requires forall y :: y in xs <==> y in ys
    ensures xs == ys
    decreases |xs|
  {
    assert |xs| > 0 ==> xs[0] in ys;
    assert |ys| > 0 ==> ys[0] in xs;
    if xs != [] && ys != [] {
      HeadIsLeast(xs, less);
      HeadIsLeast(ys, less);
      assert xs[0] == ys[0];
      var xt, yt := xs[1..], ys[1..];
      forall y ensures y in xt <==> y in yt {
        if y in xt {
          var i :| 0 <= i < |xt| && xt[i] == y;
          assert less(xs[0], y);
          assert y in ys && y != ys[0];
        }
        if y in yt {
          var j :| 0 <= j < |yt| && yt[j] == y;
          assert less(ys[0], y);
          assert y in xs && y != xs[0];
        }
      }
      StrictlySortedUnique(xt, yt, less);
      assert xs == [xs[0]] + xt && ys == [ys[0]] + yt;
    }
  }
}
