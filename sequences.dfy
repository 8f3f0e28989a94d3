/** Order-keeping selection from a list, shared by the scans that filter lines and rows. */
module Sequences {

  /** xs is ys with some elements left out, the rest kept in order. */
  predicate SubsequenceOf<T(==)>(xs: seq<T>, ys: seq<T>)
    decreases |ys|
  {
    if ys == [] then xs == []
    else
      (xs != [] && xs[|xs| - 1] == ys[|ys| - 1] && SubsequenceOf(xs[..|xs| - 1], ys[..|ys| - 1]))
      || SubsequenceOf(xs, ys[..|ys| - 1])
  }

  /** Appending an element to ys keeps a subsequence, whether or not xs takes it too. */
  lemma SubsequenceSnoc<T>(xs: seq<T>, ys: seq<T>, y: T)
    requires SubsequenceOf(xs, ys)
    ensures SubsequenceOf(xs, ys + [y])
    ensures SubsequenceOf(xs + [y], ys + [y])
  {
    assert (ys + [y])[..|ys|] == ys;
    assert (xs + [y])[..|xs|] == xs;
  }

  /** Putting the same front before both keeps a prefix a prefix. */
  lemma PrefixAppend<T>(front: seq<T>, part: seq<T>, whole: seq<T>)
    requires part <= whole
    ensures front + part <= front + whole
  {
    assert (front + whole)[..|front + part|] == front + part;
  }

  lemma PrefixTrans<T>(a: seq<T>, b: seq<T>, c: seq<T>)
    requires a <= b && b <= c
    ensures a <= c
  {
    assert c[..|a|] == b[..|a|];
  }
}
