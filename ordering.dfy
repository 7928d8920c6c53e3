// Three-way comparators in the convention of Go's cmp.Compare and
// bytes.Compare: negative, zero or positive.
module Ordering {
  /** cmp is a strict total order whose zero means equality. */
  ghost predicate TotalOrder<K(!new)>(cmp: (K, K) -> int)
  {
    && (forall a, b :: cmp(a, b) == 0 <==> a == b)
    && (forall a, b :: cmp(a, b) < 0 <==> cmp(b, a) > 0)
    && (forall a, b, c :: cmp(a, b) < 0 && cmp(b, c) < 0 ==> cmp(a, c) < 0)
  }

  /** cmp.Compare on integers (the uint32 codes of peer node buckets). */
  function IntCompare(a: int, b: int): (r: int)
    ensures r < 0 <==> a < b
    ensures r == 0 <==> a == b
  {
    if a < b then -1 else if a > b then 1 else 0
  }

  lemma IntCompareTotal()
    ensures TotalOrder(IntCompare)
  {
  }

  /** The comparator with its arguments exchanged. */
  function Flip<K>(cmp: (K, K) -> int): (K, K) -> int
  {
    (a, b) => cmp(b, a)
  }

  lemma FlipTotal<K(!new)>(cmp: (K, K) -> int)
    requires TotalOrder(cmp)
    ensures TotalOrder(Flip(cmp))
  {
  }
}
