/** Keeping the elements of a sequence that pass a test, in their order:
    what a list comprehension with an `if` clause, or a boolean mask on a
    table, computes. */
module Filtering {

  /** The elements of `xs` for which `keep` holds, in the order of `xs`. */
  function Filter<T(!new)>(xs: seq<T>, keep: T -> bool): (r: seq<T>)
    ensures |r| <= |xs|
    ensures forall x :: x in r <==> x in xs && keep(x)
  {
    if xs == [] then []
    else (if keep(xs[0]) then [xs[0]] else []) + Filter(xs[1..], keep)
  }

  /** Filtering a concatenation filters each part and keeps them in order. */
  lemma {:induction false} FilterConcat<T(!new)>(a: seq<T>, b: seq<T>, keep: T -> bool)
    ensures Filter(a + b, keep) == Filter(a, keep) + Filter(b, keep)
  {
    if a == [] {
      assert a + b == b;
    } else {
      assert (a + b)[0] == a[0] && (a + b)[1..] == a[1..] + b;
      FilterConcat(a[1..], b, keep);
    }
  }

  /** One element is kept exactly when it passes, at its place between the
      elements kept before it and those kept after it. Together with
      `Filter([], keep) == []` this determines the result: nothing is
      reordered, dropped or repeated. */
  lemma FilterAround<T(!new)>(a: seq<T>, x: T, b: seq<T>, keep: T -> bool)
    ensures Filter(a + [x] + b, keep) == Filter(a, keep) + (if keep(x) then [x] else []) + Filter(b, keep)
  {
    FilterConcat(a + [x], b, keep);
    FilterConcat(a, [x], keep);
    assert Filter([x], keep) == (if keep(x) then [x] else []) by {
      assert [x][1..] == [];
    }
  }
}
