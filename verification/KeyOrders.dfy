/** Comparators as a caller hands them over (include/leveldb/comparator.h). */
module KeyOrders {
  import opened Coding

  /** `lt(a, b)` iff Compare(a, b) < 0. */
  type KeyOrder = (Bytes, Bytes) -> bool

  /** The contract of a comparator: equivalent keys are alike for every other key. */
  ghost predicate WeakOrder(lt: KeyOrder) {
    && (forall a, b :: lt(a, b) ==> !lt(b, a))
    && (forall a, b, c :: lt(a, b) ==> lt(a, c) || lt(c, b))
  }

  lemma Transitive(lt: KeyOrder, a: Bytes, b: Bytes, c: Bytes)
    requires WeakOrder(lt) && lt(a, b) && lt(b, c)
    ensures lt(a, c)
  {
    assert lt(a, c) || lt(c, b);
  }
}
