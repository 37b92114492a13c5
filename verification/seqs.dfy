/**
 * The "last occurrence" of a key in a sequence. Several loops of the
 * application core write into a map keyed by something taken from each
 * element in turn, so the later element wins: the value stored under a key
 * is the one of its last occurrence.
 */
module Seqs {

  /** Index of the last occurrence of x in xs, or -1 when x does not occur. */
  function LastIndex<T(==)>(xs: seq<T>, x: T): (j: int)
    ensures -1 <= j < |xs|
    ensures j >= 0 ==> xs[j] == x
    ensures j == -1 <==> x !in xs
    ensures forall k :: j < k < |xs| ==> xs[k] != x
  {
    if xs == [] then -1
    else if xs[|xs| - 1] == x then |xs| - 1
    else LastIndex(xs[..|xs| - 1], x)
  }

  /** Appending an element either makes it the last occurrence of its value or changes nothing. */
  lemma LastIndexAppend<T>(xs: seq<T>, y: T, x: T)
    ensures LastIndex(xs + [y], x) == if y == x then |xs| else LastIndex(xs, x)
  {
    assert (xs + [y])[..|xs|] == xs;
  }
}
