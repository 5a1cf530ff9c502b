/** Searching a sequence, as indexOf and querySelector do: the first match wins. */
module Sequences {
  import opened Wrappers

  /** The first position of `x` in `xs`, if any. */
  function FirstIndex<T(==)>(xs: seq<T>, x: T): (r: Option<nat>)
    ensures r.Some? ==> r.value < |xs| && xs[r.value] == x && forall j | 0 <= j < r.value :: xs[j] != x
    ensures r.None? ==> forall j | 0 <= j < |xs| :: xs[j] != x
  {
    if xs == [] then None
    else if xs[0] == x then Some(0)
    else match FirstIndex(xs[1..], x)
      case None => None
      case Some(k) => Some(k + 1)
  }

  /** The first position of `x` is just past a prefix that does not hold it. */
  lemma {:induction false} FirstIndexAfter<T>(xs: seq<T>, ys: seq<T>, x: T)
    requires forall i | 0 <= i < |xs| :: xs[i] != x
    requires |ys| > 0 && ys[0] == x
    ensures FirstIndex(xs + ys, x) == Some(|xs|)
  {
    if xs != [] {
      assert (xs + ys)[1..] == xs[1..] + ys;
      FirstIndexAfter(xs[1..], ys, x);
    }
  }
}
